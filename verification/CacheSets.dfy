// One set of a set-associative cache as a value, and what the cache operations do to it
// (src/utils/cache/cacheMemory.hpp, src/utils/cache/replacement_policies/lru.cpp).
module CacheSets {
  import opened Wrappers

  const WORD: nat := 0x1_0000_0000  // unsigned int wraps around here

  datatype Way<V> = Way(isValid: bool, tag: nat, value: V, age: nat)

  function Increment(counter: nat): nat {
    (counter + 1) % WORD
  }

  // Counters have 32 bits.
  lemma CountersWrap(counter: nat)
    ensures counter < 0xFFFF_FFFF ==> Increment(counter) == counter + 1
    ensures Increment(0xFFFF_FFFF) == 0
  {
  }

  predicate Holds<V>(way: Way<V>, tag: nat) {
    way.isValid && way.tag == tag
  }

  // The first way from `from` on that holds the tag.
  function FindFrom<V>(ways: seq<Way<V>>, tag: nat, from: nat): Option<nat>
    decreases |ways| - from
  {
    if from >= |ways| then None
    else if Holds(ways[from], tag) then Some(from) else FindFrom(ways, tag, from + 1)
  }

  function Find<V>(ways: seq<Way<V>>, tag: nat): Option<nat> {
    FindFrom(ways, tag, 0)
  }

  // The first way from `from` on that holds nothing.
  function EmptyFrom<V>(ways: seq<Way<V>>, from: nat): Option<nat>
    decreases |ways| - from
  {
    if from >= |ways| then None else if !ways[from].isValid then Some(from) else EmptyFrom(ways, from + 1)
  }

  ghost predicate Resident<V>(ways: seq<Way<V>>, tag: nat) {
    exists w :: 0 <= w < |ways| && Holds(ways[w], tag)
  }

  lemma {:induction false} FindFromMeaning<V>(ways: seq<Way<V>>, tag: nat, from: nat)
    ensures match FindFrom(ways, tag, from)
      case None => forall w :: from <= w < |ways| ==> !Holds(ways[w], tag)
      case Some(found) =>
        && from <= found < |ways| && Holds(ways[found], tag)
        && forall w :: from <= w < found ==> !Holds(ways[w], tag)
    decreases |ways| - from
  {
    if from < |ways| && !Holds(ways[from], tag) {
      FindFromMeaning(ways, tag, from + 1);
    }
  }

  lemma {:induction false} EmptyFromMeaning<V>(ways: seq<Way<V>>, from: nat)
    ensures match EmptyFrom(ways, from)
      case None => forall w :: from <= w < |ways| ==> ways[w].isValid
      case Some(found) =>
        && from <= found < |ways| && !ways[found].isValid
        && forall w :: from <= w < found ==> ways[w].isValid
    decreases |ways| - from
  {
    if from < |ways| && ways[from].isValid {
      EmptyFromMeaning(ways, from + 1);
    }
  }

  // LRU::Acess: every way of the set gets older, the accessed one is new.
  function Touch<V>(ways: seq<Way<V>>, w: nat): (after: seq<Way<V>>)
    requires w < |ways|
    ensures |after| == |ways|
    ensures forall k :: 0 <= k < |ways| ==>
      after[k] == ways[k].(age := if k == w then 0 else Increment(ways[k].age))
  {
    seq(|ways|, k requires 0 <= k < |ways| =>
      ways[k].(age := if k == w then 0 else Increment(ways[k].age)))
  }

  // LRU::SelectVictim: the first way with the largest counter.
  ghost predicate IsVictim<V>(ways: seq<Way<V>>, w: nat) {
    && w < |ways|
    && (forall k :: 0 <= k < |ways| ==> ways[k].age <= ways[w].age)
    && (forall k :: 0 <= k < w ==> ways[k].age < ways[w].age)
  }

  function VictimFrom<V>(ways: seq<Way<V>>, from: nat, best: nat): (w: nat)
    requires best < |ways|
    ensures w < |ways|
    decreases |ways| - from
  {
    if from >= |ways| then best
    else VictimFrom(ways, from + 1, if ways[from].age > ways[best].age then from else best)
  }

  function Victim<V>(ways: seq<Way<V>>): (w: nat)
    requires ways != []
    ensures w < |ways|
  {
    VictimFrom(ways, 0, 0)
  }

  lemma {:induction false} VictimFromMeaning<V>(ways: seq<Way<V>>, from: nat, best: nat)
    requires best < |ways| && (best < from || from == 0 == best)
    requires forall k :: 0 <= k < from && k < |ways| ==> ways[k].age <= ways[best].age
    requires forall k :: 0 <= k < best ==> ways[k].age < ways[best].age
    ensures IsVictim(ways, VictimFrom(ways, from, best))
    decreases |ways| - from
  {
    if from < |ways| {
      VictimFromMeaning(ways, from + 1, if ways[from].age > ways[best].age then from else best);
    }
  }

  // Where a write goes: the first empty way, or else the way of the policy's choice.
  function Target<V>(ways: seq<Way<V>>, victim: nat): nat {
    match EmptyFrom(ways, 0)
    case Some(w) => w
    case None => victim
  }

  // A write into a chosen way.
  function Place<V>(ways: seq<Way<V>>, w: nat, tag: nat, value: V): seq<Way<V>>
    requires w < |ways|
  {
    Touch(ways[w := ways[w].(isValid := true, tag := tag, value := value)], w)
  }

  function ReadSet<V>(ways: seq<Way<V>>, tag: nat): (seq<Way<V>>, Option<V>) {
    match Find(ways, tag)
    case None => (ways, None)
    case Some(w) => if w < |ways| then (Touch(ways, w), Some(ways[w].value)) else (ways, None)
  }

  function WriteSet<V>(ways: seq<Way<V>>, tag: nat, value: V): (after: seq<Way<V>>)
    requires ways != []
    ensures |after| == |ways|
  {
    var w := Target(ways, Victim(ways));
    if w < |ways| then Place(ways, w, tag, value) else ways
  }
}
