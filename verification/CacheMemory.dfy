// The set-associative cache with least-recently-used replacement
// (src/utils/cache/cacheMemory.hpp, src/utils/cache/replacement_policies/lru.cpp).
module CacheMemories {
  import opened Wrappers
  import opened Addresses
  import opened CacheSets

  class LRU {
    const numSets: nat
    const numWays: nat
    const WayUsageCounters: array2<nat>

    predicate Valid() {
      WayUsageCounters.Length0 == numSets && WayUsageCounters.Length1 == numWays
    }

    constructor (numSets: nat, numWays: nat)
      ensures Valid() && fresh(WayUsageCounters)
      ensures this.numSets == numSets && this.numWays == numWays
      ensures forall s, w :: 0 <= s < numSets && 0 <= w < numWays ==> WayUsageCounters[s, w] == 0
    {
      this.numSets := numSets;
      this.numWays := numWays;
      WayUsageCounters := new nat[numSets, numWays]((s, w) => 0);
    }

    method Acess(i: nat, j: nat)
      requires Valid() && i < numSets && j < numWays
      modifies WayUsageCounters
      ensures forall s, w :: 0 <= s < numSets && 0 <= w < numWays ==>
        WayUsageCounters[s, w] ==
          if s != i then old(WayUsageCounters[s, w])
          else if w == j then 0 else Increment(old(WayUsageCounters[s, w]))
    {
      for way := 0 to numWays
        invariant forall s, w :: 0 <= s < numSets && 0 <= w < numWays ==>
          WayUsageCounters[s, w] ==
            if s == i && w < way then Increment(old(WayUsageCounters[s, w])) else old(WayUsageCounters[s, w])
      {
        WayUsageCounters[i, way] := (WayUsageCounters[i, way] + 1) % WORD;
      }
      WayUsageCounters[i, j] := 0;
    }

    method SelectVictim(index: nat) returns (resultWay: nat)
      requires Valid() && index < numSets && 1 <= numWays
      ensures resultWay < numWays
      ensures forall w :: 0 <= w < numWays ==> WayUsageCounters[index, w] <= WayUsageCounters[index, resultWay]
      ensures forall w :: 0 <= w < resultWay ==> WayUsageCounters[index, w] < WayUsageCounters[index, resultWay]
    {
      var lruMaxCount: int := -1;
      resultWay := 0;
      for way := 0 to numWays
        invariant way == 0 ==> lruMaxCount == -1
        invariant way > 0 ==> resultWay < way && lruMaxCount == WayUsageCounters[index, resultWay]
        invariant forall w :: 0 <= w < way ==> WayUsageCounters[index, w] <= lruMaxCount
        invariant way > 0 ==> forall w :: 0 <= w < resultWay ==> WayUsageCounters[index, w] < lruMaxCount
      {
        if WayUsageCounters[index, way] > lruMaxCount {
          lruMaxCount := WayUsageCounters[index, way];
          resultWay := way;
        }
      }
    }
  }

  datatype CacheLine = CacheLine(tag: nat, index: nat, isValid: bool)

  class CacheMemory<V(0)> {
    const split: Split
    const numWays: nat
    const numSets: nat
    const entries: array2<CacheLine>
    const data: array2<V>
    const policy: LRU
    var statMiss: nat
    var statHit: nat
    var statAcess: nat
    var statEvaction: nat
    ghost var Sets: seq<seq<Way<V>>>  // lines, data and counters together, set by set

    ghost predicate Valid()
      reads this, entries, data, policy.WayUsageCounters
    {
      && split.Valid() && 1 <= numWays && numSets == split.NumSets()
      && policy.Valid() && policy.numSets == numSets && policy.numWays == numWays
      && entries.Length0 == data.Length0 == numSets
      && entries.Length1 == data.Length1 == numWays
      && (data as object) !in {entries as object, policy.WayUsageCounters}
      && |Sets| == numSets
      && (forall s :: 0 <= s < numSets ==> |Sets[s]| == numWays)
      && (forall s, w :: 0 <= s < numSets && 0 <= w < numWays ==>
        Sets[s][w]
          == Way(entries[s, w].isValid, entries[s, w].tag, data[s, w], policy.WayUsageCounters[s, w]))
    }

    ghost function Repr(): set<object> {
      {this, entries, data, policy.WayUsageCounters}
    }

    constructor Alocate(split: Split, associativity: nat, zero: V)
      requires split.Valid() && 1 <= associativity
      ensures Valid() && fresh(Repr())
      ensures this.split == split && numWays == associativity
      ensures statMiss == statHit == statAcess == statEvaction == 0
      ensures forall s, w :: 0 <= s < numSets && 0 <= w < numWays ==> Sets[s][w] == Way(false, 0, zero, 0)
    {
      this.split := split;
      numWays := associativity;
      numSets := split.NumSets();
      policy := new LRU(split.NumSets(), associativity);
      entries := new CacheLine[split.NumSets(), associativity]((s, w) => CacheLine(0, 0, false));
      data := new V[split.NumSets(), associativity]((s, w) => zero);
      statMiss, statHit, statAcess, statEvaction := 0, 0, 0, 0;
      Sets := seq(split.NumSets(), s => seq(associativity, w => Way(false, 0, zero, 0)));
    }

    function GetIndex(addr: Address): (index: nat)
      requires split.Valid()
      ensures index == split.GetIndex(addr)
      ensures index < split.NumSets()
    {
      IndexInRange(split, addr);
      split.GetIndex(addr)
    }

    method GetEntry(addr: Address) returns (result: Option<nat>)
      requires Valid()
      ensures result == Find(Sets[GetIndex(addr)], split.GetTag(addr))
    {
      var tag := split.GetTag(addr);
      var index := GetIndex(addr);
      for way := 0 to numWays
        invariant FindFrom(Sets[index], tag, way) == Find(Sets[index], tag)
      {
        if entries[index, way].isValid && entries[index, way].tag == tag {
          return Some(way);
        }
      }
      return None;
    }

    method FindEmptyEntry(addr: Address) returns (result: Option<nat>)
      requires Valid()
      ensures result == EmptyFrom(Sets[GetIndex(addr)], 0)
    {
      var index := GetIndex(addr);
      for way := 0 to numWays
        invariant EmptyFrom(Sets[index], way) == EmptyFrom(Sets[index], 0)
      {
        if !entries[index, way].isValid {
          return Some(way);
        }
      }
      return None;
    }

    method Read(addr: Address) returns (result: Option<V>)
      requires Valid()
      modifies Repr()
      ensures Valid()
      ensures var index := GetIndex(addr); var read := ReadSet(old(Sets)[index], split.GetTag(addr));
        Sets == old(Sets)[index := read.0] && result == read.1
      ensures statAcess == old(statAcess) + 1 && statEvaction == old(statEvaction)
      ensures statHit == old(statHit) + (if result.Some? then 1 else 0)
      ensures statMiss == old(statMiss) + (if result.Some? then 0 else 1)
    {
      var index := GetIndex(addr);
      var line := GetEntry(addr);
      FindFromMeaning(Sets[index], split.GetTag(addr), 0);
      result := None;
      if line.Some? {
        policy.Acess(index, line.value);
        result := Some(data[index, line.value]);
        Sets := Sets[index := Touch(Sets[index], line.value)];
      }
      statAcess := statAcess + 1;
      if line.Some? {
        statHit := statHit + 1;
      } else {
        statMiss := statMiss + 1;
      }
    }

    method Write(addr: Address, value: V)
      requires Valid()
      modifies Repr()
      ensures Valid()
      ensures var index := GetIndex(addr);
        Sets == old(Sets)[index := WriteSet(old(Sets)[index], split.GetTag(addr), value)]
      ensures statMiss == old(statMiss) && statHit == old(statHit) && statAcess == old(statAcess)
      ensures statEvaction == old(statEvaction) + 1
    {
      var tag := split.GetTag(addr);
      var index := GetIndex(addr);
      var empty := FindEmptyEntry(addr);
      EmptyFromMeaning(Sets[index], 0);
      var way: nat;
      if empty.Some? {
        way := empty.value;
      } else {
        way := policy.SelectVictim(index);
        VictimIsUnique(Sets[index], way);
      }
      entries[index, way] := CacheLine(tag, index, true);
      policy.Acess(index, way);
      data[index, way] := value;
      Sets := Sets[index := Place(Sets[index], way, tag, value)];
      statEvaction := statEvaction + 1;
    }
  }

  lemma VictimIsUnique<V>(ways: seq<Way<V>>, w: nat)
    requires IsVictim(ways, w)
    ensures Victim(ways) == w
  {
    VictimFromMeaning(ways, 0, 0);
    var v := Victim(ways);
    assert ways[v].age <= ways[w].age && ways[w].age <= ways[v].age;
  }
}
