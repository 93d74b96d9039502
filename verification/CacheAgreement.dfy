// What a cache returns, under any replacement policy that chooses a way of the indexed
// set (src/utils/cache/cacheMemory.hpp).
module CacheAgreement {
  import opened Wrappers
  import opened Addresses
  import opened CacheSets
  import opened ReuseDistance

  // ------ Writes and stale copies

  // Write does not look for a copy of the line. It keeps the set free of duplicates
  // exactly when the line was not resident, or when the chosen way is the one that held it.
  lemma WriteKeepsUnique<V>(ways: seq<Way<V>>, w: nat, tag: nat, value: V)
    requires Unique(ways) && w < |ways|
    ensures Unique(Place(ways, w, tag, value)) <==> !Resident(ways, tag) || Holds(ways[w], tag)
  {
    var after := Place(ways, w, tag, value);
    if Resident(ways, tag) && !Holds(ways[w], tag) {
      var k :| 0 <= k < |ways| && Holds(ways[k], tag);
      assert after[k].isValid && after[w].isValid && after[k].tag == after[w].tag;
    } else {
      forall k | 0 <= k < |ways| && k != w && ways[k].isValid
        ensures ways[k].tag != tag
      {
        assert Holds(ways[k], tag) ==> Resident(ways, tag);
      }
    }
  }

  // What is read back is the written copy exactly when no copy stands in an earlier way.
  lemma ReadFindsTheWrite<V>(ways: seq<Way<V>>, w: nat, tag: nat, value: V)
    requires w < |ways|
    ensures Find(Place(ways, w, tag, value), tag) == Some(w)
      <==> forall k :: 0 <= k < w ==> !Holds(ways[k], tag)
  {
    var after := Place(ways, w, tag, value);
    FindFromMeaning(after, tag, 0);
    assert Holds(after[w], tag);
    assert forall k :: 0 <= k < w ==> (Holds(after[k], tag) <==> Holds(ways[k], tag));
  }

  // A concrete failure from an empty set: writing a line again fills another way and
  // leaves the old value where Read finds it first.
  lemma SecondWriteIsNotRead()
    ensures var empty := [Way(false, 0, 0, 0), Way(false, 0, 0, 0)];
      ReadSet(WriteSet(WriteSet(empty, 7, 1), 7, 2), 7).1 == Some(1)
  {
    var empty := [Way(false, 0, 0, 0), Way(false, 0, 0, 0)];
    EmptyFromMeaning(empty, 0);
    assert Target(empty, Victim(empty)) == 0 by {
      assert !empty[0].isValid;
    }
    var once := WriteSet(empty, 7, 1);
    assert once[0] == Way(true, 7, 1, 0) && !once[1].isValid;
    EmptyFromMeaning(once, 0);
    assert Target(once, Victim(once)) == 1;
    assert Holds(Place(once, 1, 7, 2)[0], 7);
  }

  // ------ Write-on-miss runs

  // One access by a client that reads and, on a miss, writes; `victim` is whatever the
  // policy would choose.
  datatype Use<V> = Use(addr: Address, value: V, victim: nat)

  // The cache, and for every line the value written to it last.
  datatype State<V> = State(sets: seq<seq<Way<V>>>, written: map<nat, V>)

  function Step<V>(split: Split, state: State<V>, use: Use<V>): (after: State<V>)
    requires split.Valid()
    ensures |after.sets| == |state.sets|
  {
    var index, tag := split.GetIndex(use.addr), split.GetTag(use.addr);
    if index >= |state.sets| then state else
    var (read, found) := ReadSet(state.sets[index], tag);
    if found.Some? then state.(sets := state.sets[index := read]) else
    var w := Target(state.sets[index], use.victim);
    if w >= |state.sets[index]| then state else
    State(state.sets[index := Place(state.sets[index], w, tag, use.value)],
          state.written[split.Line(use.addr) := use.value])
  }

  function Run<V>(split: Split, numWays: nat, zero: V, uses: seq<Use<V>>): (state: State<V>)
    requires split.Valid()
    ensures |state.sets| == split.NumSets()
  {
    if uses == [] then State(EmptyCache(split, numWays, zero), map[]) else
    var n := |uses| - 1;
    Step(split, Run(split, numWays, zero, uses[..n]), uses[n])
  }

  // The line that a tag stands for in a set.
  function LineOf(split: Split, tag: nat, index: nat): nat {
    Shl(tag, split.indexBits) + index
  }

  lemma LineOfAddress(split: Split, addr: Address)
    requires split.Valid()
    ensures split.Line(addr) == LineOf(split, split.GetTag(addr), split.GetIndex(addr))
  {
    FieldsOfLine(split, addr);
    ShiftAndMask(split.Line(addr), split.indexBits);
  }

  // Every valid line holds the value written last to it.
  ghost predicate Current<V>(split: Split, ways: seq<Way<V>>, index: nat, written: map<nat, V>) {
    forall w :: 0 <= w < |ways| && ways[w].isValid ==>
      LineOf(split, ways[w].tag, index) in written && written[LineOf(split, ways[w].tag, index)] == ways[w].value
  }

  ghost predicate Coherent<V>(split: Split, state: State<V>) {
    forall s :: 0 <= s < |state.sets| ==>
      Unique(state.sets[s]) && Current(split, state.sets[s], s, state.written)
  }

  lemma OtherLine(split: Split, tag: nat, index: nat, otherTag: nat, otherIndex: nat)
    requires split.Valid() && index < split.NumSets() && otherIndex < split.NumSets()
    requires LineOf(split, tag, index) == LineOf(split, otherTag, otherIndex)
    ensures tag == otherTag && index == otherIndex
  {
    PartsOfSum(tag, index, split.indexBits);
    PartsOfSum(otherTag, otherIndex, split.indexBits);
  }

  lemma MissStaysCoherent<V>(split: Split, state: State<V>, use: Use<V>, w: nat)
    requires split.Valid() && Coherent(split, state) && |state.sets| == split.NumSets()
    requires split.GetIndex(use.addr) < |state.sets| && w < |state.sets[split.GetIndex(use.addr)]|
    requires !Resident(state.sets[split.GetIndex(use.addr)], split.GetTag(use.addr))
    ensures var index, tag := split.GetIndex(use.addr), split.GetTag(use.addr);
      Coherent(split, State(state.sets[index := Place(state.sets[index], w, tag, use.value)],
                            state.written[split.Line(use.addr) := use.value]))
  {
    var index, tag := split.GetIndex(use.addr), split.GetTag(use.addr);
    var after := State(state.sets[index := Place(state.sets[index], w, tag, use.value)],
                       state.written[split.Line(use.addr) := use.value]);
    LineOfAddress(split, use.addr);
    WriteKeepsUnique(state.sets[index], w, tag, use.value);
    forall s | 0 <= s < |after.sets|
      ensures Unique(after.sets[s]) && Current(split, after.sets[s], s, after.written)
    {
      forall k | 0 <= k < |after.sets[s]| && after.sets[s][k].isValid && !(s == index && k == w)
        ensures LineOf(split, after.sets[s][k].tag, s) != split.Line(use.addr)
      {
        if LineOf(split, after.sets[s][k].tag, s) == split.Line(use.addr) {
          OtherLine(split, tag, index, after.sets[s][k].tag, s);
          assert Holds(state.sets[index][k], tag);
        }
      }
    }
  }

  lemma StepStaysCoherent<V>(split: Split, state: State<V>, use: Use<V>)
    requires split.Valid() && Coherent(split, state) && |state.sets| == split.NumSets()
    ensures Coherent(split, Step(split, state, use))
  {
    IndexInRange(split, use.addr);
    var index, tag := split.GetIndex(use.addr), split.GetTag(use.addr);
    FindFromMeaning(state.sets[index], tag, 0);
    if ReadSet(state.sets[index], tag).1.None? {
      var w := Target(state.sets[index], use.victim);
      if w < |state.sets[index]| {
        MissStaysCoherent(split, state, use, w);
      }
    }
  }

  lemma {:induction false} RunsAreCoherent<V>(split: Split, numWays: nat, zero: V, uses: seq<Use<V>>)
    requires split.Valid()
    ensures Coherent(split, Run(split, numWays, zero, uses))
  {
    if uses != [] {
      var n := |uses| - 1;
      RunsAreCoherent(split, numWays, zero, uses[..n]);
      StepStaysCoherent(split, Run(split, numWays, zero, uses[..n]), uses[n]);
    }
  }

  // After any run no set holds a line twice, and a read that hits returns the value
  // written last to an address that agrees with this one above the offset bits.
  lemma HitReturnsTheLatestWrite<V>(split: Split, numWays: nat, zero: V, uses: seq<Use<V>>, addr: Address)
    requires split.Valid()
    ensures split.GetIndex(addr) < split.NumSets()
    ensures var state := Run(split, numWays, zero, uses);
      var ways := state.sets[split.GetIndex(addr)];
      && Unique(ways)
      && match ReadSet(ways, split.GetTag(addr)).1
        case None => true
        case Some(value) => split.Line(addr) in state.written && value == state.written[split.Line(addr)]
  {
    IndexInRange(split, addr);
    RunsAreCoherent(split, numWays, zero, uses);
    FindFromMeaning(Run(split, numWays, zero, uses).sets[split.GetIndex(addr)], split.GetTag(addr), 0);
    LineOfAddress(split, addr);
  }
}
