// What the age counters do when a line of a full set is idle for 2^32 accesses.
module WrappedCounters {
  import opened CacheSets
  import opened ReuseDistance

  function Repeated<V>(ways: seq<Way<V>>, tag: nat, value: V, k: nat): (after: seq<Way<V>>)
    requires ways != []
    ensures |after| == |ways|
  {
    if k == 0 then ways else AccessSet(Repeated(ways, tag, value, k - 1), tag, value)
  }

  function Copies(tag: nat, k: nat): seq<nat> {
    if k == 0 then [] else Copies(tag, k - 1) + [tag]
  }

  lemma HitFirst<V>(first: Way<V>, second: Way<V>, tag: nat, value: V)
    requires Holds(first, tag)
    ensures AccessSet([first, second], tag, value)
      == [first.(age := 0), second.(age := Increment(second.age))]
  {
    var ways := [first, second];
    FindFromMeaning(ways, tag, 0);
    assert Holds(ways[0], tag);
    assert Touch(ways, 0) == [first.(age := 0), second.(age := Increment(second.age))];
  }

  lemma MissFirst<V>(first: Way<V>, second: Way<V>, tag: nat, value: V)
    requires !Holds(first, tag) && !Holds(second, tag)
    requires !first.isValid || (second.isValid && second.age <= first.age)
    ensures AccessSet([first, second], tag, value)
      == [Way(true, tag, value, 0), second.(age := Increment(second.age))]
  {
    var ways := [first, second];
    FindFromMeaning(ways, tag, 0);
    EmptyFromMeaning(ways, 0);
    VictimFromMeaning(ways, 0, 0);
    assert ways[0] == first && ways[1] == second;
    assert Target(ways, Victim(ways)) == 0;
    assert Place(ways, 0, tag, value) == [Way(true, tag, value, 0), second.(age := Increment(second.age))];
  }

  lemma FillSecond<V>(first: Way<V>, second: Way<V>, tag: nat, value: V)
    requires !Holds(first, tag) && first.isValid && !second.isValid
    ensures AccessSet([first, second], tag, value)
      == [first.(age := Increment(first.age)), Way(true, tag, value, 0)]
  {
    var ways := [first, second];
    FindFromMeaning(ways, tag, 0);
    EmptyFromMeaning(ways, 0);
    assert ways[0] == first && ways[1] == second;
    assert Place(ways, 1, tag, value) == [first.(age := Increment(first.age)), Way(true, tag, value, 0)];
  }

  lemma {:induction false} RepeatedAges<V>(x: nat, y: nat, value: V, k: nat)
    requires 1 <= k
    ensures Repeated([Way(true, x, value, 1), Way(true, y, value, 0)], x, value, k)
      == [Way(true, x, value, 0), Way(true, y, value, k % WORD)]
  {
    if k == 1 {
      HitFirst(Way(true, x, value, 1), Way(true, y, value, 0), x, value);
    } else {
      RepeatedAges(x, y, value, k - 1);
      assert Increment((k - 1) % WORD) == k % WORD;
      HitFirst(Way(true, x, value, 0), Way(true, y, value, (k - 1) % WORD), x, value);
    }
  }

  lemma CopiesAreRecent(x: nat, y: nat, z: nat, k: nat)
    requires 1 <= k && x != z
    ensures x in [x, y] + Copies(x, k) + [z]
    ensures Since([x, y] + Copies(x, k) + [z], x) == {z}
  {
    var history := [x, y] + Copies(x, k);
    assert history[|history| - 1] == x;
    SinceSnoc(history, z, x);
  }

  // Some condition on idle lines is needed for HitIffRecentlyUsed. Two lines fill a two-way set and the
  // first is then accessed 2^32 times more: the counter of the idle one wraps to zero,
  // and the next miss evicts the line that was used last.
  lemma WrappedCounterEvictsTheNewest<V>(x: nat, y: nat, z: nat, value: V)
    requires x != y && y != z && x != z
    ensures var empty := [Way(false, 0, value, 0), Way(false, 0, value, 0)];
      var filled := AccessSet(AccessSet(empty, x, value), y, value);
      var after := AccessSet(Repeated(filled, x, value, WORD), z, value);
      !Resident(after, x) && Recent([x, y] + Copies(x, WORD) + [z], x, 2)
  {
    var free := Way(false, 0, value, 0);
    MissFirst(free, free, x, value);
    FillSecond(Way(true, x, value, 0), free.(age := 1), y, value);
    RepeatedAges(x, y, value, WORD);
    MissFirst(Way(true, x, value, 0), Way(true, y, value, 0), z, value);
    CopiesAreRecent(x, y, z, WORD);
  }
}
