// Which accesses hit: the full characterisation of the LRU cache. A line is resident
// exactly when fewer than numWays distinct other lines of its set were accessed since.
module ReuseDistance {
  import opened Addresses
  import opened CacheSets
  import opened CacheMemories

  // ------ Histories: the tags accessed in one set, oldest first

  function Since(history: seq<nat>, tag: nat): set<nat>
    requires tag in history
  {
    var n := |history| - 1;
    if history[n] == tag then {} else {history[n]} + Since(history[..n], tag)
  }

  // The position of the latest access to the tag.
  function Latest(history: seq<nat>, tag: nat): (i: nat)
    requires tag in history
    ensures i < |history| && history[i] == tag
  {
    var n := |history| - 1;
    if history[n] == tag then n else Latest(history[..n], tag)
  }

  // The tags accessed since `tag` are those accessed later, and less was accessed since
  // any of them.
  lemma {:induction false} SinceIsLater(history: seq<nat>, tag: nat, other: nat)
    requires tag in history
    ensures other in Since(history, tag) <==> other in history && Latest(history, tag) < Latest(history, other)
    ensures other in Since(history, tag) ==> Since(history, other) <= Since(history, tag) - {other}
    ensures tag !in Since(history, tag)
  {
    var n := |history| - 1;
    var last, before := history[n], history[..n];
    assert history == before + [last];
    if last != tag {
      SinceIsLater(before, tag, other);
    }
  }

  lemma SinceSnoc(history: seq<nat>, last: nat, tag: nat)
    requires tag in history + [last]
    ensures Since(history + [last], tag) == if tag == last then {} else {last} + Since(history, tag)
    ensures Latest(history + [last], tag) == if tag == last then |history| else Latest(history, tag)
  {
    assert (history + [last])[..|history|] == history;
  }

  lemma SubsetSize(a: set<nat>, b: set<nat>)
    requires a <= b
    ensures |a| <= |b|
    ensures a != b ==> |a| < |b|
  {
    var rest := b - a;
    assert b == a + rest;
    if a != b {
      assert rest != {};
    }
  }

  // ------ What the counters and the residents of a set mean

  predicate Recent(history: seq<nat>, tag: nat, numWays: nat) {
    tag in history && |Since(history, tag)| < numWays
  }

  ghost predicate Unique<V>(ways: seq<Way<V>>) {
    forall v, w :: 0 <= v < |ways| && 0 <= w < |ways| && v != w && ways[v].isValid && ways[w].isValid ==>
      ways[v].tag != ways[w].tag
  }

  // The accesses to the set since the tag's own.
  function Age(history: seq<nat>, tag: nat): nat
    requires tag in history
  {
    |history| - 1 - Latest(history, tag)
  }

  // Each counter is the age of its line, as far as an unsigned int can hold it.
  ghost predicate Counted<V>(ways: seq<Way<V>>, history: seq<nat>) {
    forall w :: 0 <= w < |ways| && ways[w].isValid ==>
      && ways[w].tag in history
      && ways[w].age == Age(history, ways[w].tag) % WORD
  }

  // Each counter is the age of its line.
  ghost predicate Aged<V>(ways: seq<Way<V>>, history: seq<nat>) {
    forall w :: 0 <= w < |ways| && ways[w].isValid ==>
      && ways[w].tag in history
      && ways[w].age == Age(history, ways[w].tag)
  }

  ghost predicate ResidentsAreRecent<V>(ways: seq<Way<V>>, history: seq<nat>) {
    forall tag :: Resident(ways, tag) <==> Recent(history, tag, |ways|)
  }

  ghost predicate Tracks<V>(ways: seq<Way<V>>, history: seq<nat>) {
    Unique(ways) && Counted(ways, history) && ResidentsAreRecent(ways, history)
  }

  // No line that should be in the set was idle for 2^32 accesses to the set.
  ghost predicate NoneIdle(history: seq<nat>, numWays: nat) {
    forall tag :: Recent(history, tag, numWays) ==> Age(history, tag) < WORD
  }

  // That was so before each of the accesses.
  ghost predicate Steady(history: seq<nat>, numWays: nat) {
    history != [] ==>
      var before := history[..|history| - 1];
      NoneIdle(before, numWays) && Steady(before, numWays)
  }

  lemma AgedIffNoneIdle<V>(ways: seq<Way<V>>, history: seq<nat>)
    requires Tracks(ways, history)
    ensures Aged(ways, history) <==> NoneIdle(history, |ways|)
  {
    if Aged(ways, history) {
      forall tag | Recent(history, tag, |ways|)
        ensures Age(history, tag) < WORD
      {
        assert Resident(ways, tag);
      }
    }
    if NoneIdle(history, |ways|) {
      forall w | 0 <= w < |ways| && ways[w].isValid
        ensures ways[w].age == Age(history, ways[w].tag)
      {
        assert Holds(ways[w], ways[w].tag);
        assert Resident(ways, ways[w].tag);
      }
    }
  }

  lemma {:induction false} ShortRunsAreSteady(history: seq<nat>, numWays: nat)
    requires |history| <= WORD
    ensures Steady(history, numWays)
  {
    if history != [] {
      ShortRunsAreSteady(history[..|history| - 1], numWays);
    }
  }

  function Residents<V>(ways: seq<Way<V>>): set<nat> {
    set w | 0 <= w < |ways| && ways[w].isValid :: ways[w].tag
  }

  lemma {:induction false} ResidentCount<V>(ways: seq<Way<V>>)
    requires Unique(ways)
    ensures |Residents(ways)| <= |ways|
    ensures |Residents(ways)| == |ways| <==> forall w :: 0 <= w < |ways| ==> ways[w].isValid
  {
    if ways != [] {
      var n := |ways| - 1;
      var init := ways[..n];
      ResidentCount(init);
      if ways[n].isValid {
        assert Residents(ways) == Residents(init) + {ways[n].tag};
      } else {
        assert Residents(ways) == Residents(init);
      }
    }
  }

  // ------ One access

  function AccessSet<V>(ways: seq<Way<V>>, tag: nat, value: V): (after: seq<Way<V>>)
    requires ways != []
    ensures |after| == |ways|
  {
    if ReadSet(ways, tag).1.Some? then ReadSet(ways, tag).0 else WriteSet(ways, tag, value)
  }

  // A hit: nothing is evicted, and touching a resident makes no other resident stale.
  lemma HitKeepsRecent(history: seq<nat>, hit: nat, tag: nat, numWays: nat)
    requires Recent(history, hit, numWays)
    ensures Recent(history + [hit], tag, numWays) <==> Recent(history, tag, numWays)
  {
    if tag in history + [hit] {
      SinceSnoc(history, hit, tag);
    }
    if tag in history && tag != hit {
      SinceIsLater(history, tag, hit);
      SinceIsLater(history, hit, tag);
      if hit in Since(history, tag) {
        assert {hit} + Since(history, tag) == Since(history, tag);
      } else {
        SubsetSize(Since(history, tag), Since(history, hit));
      }
    }
  }

  // All that is more recent than a resident is resident too.
  lemma MoreRecentAreResident<V>(ways: seq<Way<V>>, history: seq<nat>, tag: nat)
    requires Tracks(ways, history) && Resident(ways, tag)
    ensures tag in history && Since(history, tag) + {tag} <= Residents(ways)
    ensures |Since(history, tag) + {tag}| == |Since(history, tag)| + 1
  {
    SinceIsLater(history, tag, tag);
    forall other | other in Since(history, tag)
      ensures other in Residents(ways)
    {
      SinceIsLater(history, tag, other);
      SubsetSize(Since(history, other), Since(history, tag));
      assert Resident(ways, other);
    }
  }

  // A miss that finds an empty way: nobody becomes stale.
  lemma FillKeepsRecent<V>(ways: seq<Way<V>>, history: seq<nat>, missed: nat, tag: nat)
    requires Tracks(ways, history) && !Resident(ways, missed) && tag != missed
    requires exists w :: 0 <= w < |ways| && !ways[w].isValid
    ensures Recent(history + [missed], tag, |ways|) <==> Recent(history, tag, |ways|)
  {
    if tag in history {
      SinceSnoc(history, missed, tag);
      SubsetSize(Since(history, tag), Since(history + [missed], tag));
      if Resident(ways, tag) {
        ResidentCount(ways);
        MoreRecentAreResident(ways, history, tag);
        SubsetSize(Since(history, tag) + {tag}, Residents(ways));
      }
    }
  }

  // No line of the set was idle for longer than this one.
  ghost predicate Longest<V>(ways: seq<Way<V>>, history: seq<nat>, w: nat)
    requires Counted(ways, history) && Full(ways)
  {
    w < |ways| && forall k :: 0 <= k < |ways| ==> Age(history, ways[k].tag) <= Age(history, ways[w].tag)
  }

  ghost predicate Full<V>(ways: seq<Way<V>>) {
    forall w :: 0 <= w < |ways| ==> ways[w].isValid
  }

  // The way is the first whose age has the largest remainder modulo 2^32.
  ghost predicate LooksOldest<V>(ways: seq<Way<V>>, history: seq<nat>, w: nat)
    requires Counted(ways, history) && Full(ways)
  {
    && w < |ways|
    && (forall k :: 0 <= k < |ways| ==> Age(history, ways[k].tag) % WORD <= Age(history, ways[w].tag) % WORD)
    && (forall k :: 0 <= k < w ==> Age(history, ways[k].tag) % WORD < Age(history, ways[w].tag) % WORD)
  }

  lemma VictimLooksOldest<V>(ways: seq<Way<V>>, history: seq<nat>, w: nat)
    requires Counted(ways, history) && Full(ways) && ways != []
    ensures LooksOldest(ways, history, w) <==> w == Victim(ways)
  {
    VictimFromMeaning(ways, 0, 0);
  }

  // With true ages the longest idle line is the one that looks oldest.
  lemma VictimIsLongest<V>(ways: seq<Way<V>>, history: seq<nat>)
    requires Tracks(ways, history) && NoneIdle(history, |ways|) && Full(ways) && ways != []
    ensures Longest(ways, history, Victim(ways))
  {
    AgedIffNoneIdle(ways, history);
    VictimFromMeaning(ways, 0, 0);
  }

  // A miss in a full set that evicts the line idle the longest: that line becomes stale,
  // and no other.
  lemma EvictionKeepsRecent<V>(ways: seq<Way<V>>, history: seq<nat>, missed: nat, victim: nat, tag: nat)
    requires Tracks(ways, history) && !Resident(ways, missed) && tag != missed
    requires Full(ways) && Longest(ways, history, victim)
    ensures Recent(history + [missed], tag, |ways|)
      <==> Recent(history, tag, |ways|) && tag != ways[victim].tag
  {
    if tag in history {
      SinceSnoc(history, missed, tag);
      SubsetSize(Since(history, tag), Since(history + [missed], tag));
      if Resident(ways, tag) {
        ResidentCount(ways);
        MoreRecentAreResident(ways, history, tag);
        var evicted := ways[victim].tag;
        if tag == evicted {
          VictimIsOldest(ways, history, victim);
          MissedNotSince(ways, history, missed, tag);
          SubsetSize(Residents(ways) - {evicted}, Since(history, tag));
        } else {
          assert Resident(ways, evicted);
          VictimIsOldest(ways, history, victim);
          SinceIsLater(history, tag, evicted);
          assert tag in Residents(ways);
          SinceIsLater(history, evicted, tag);
          SubsetSize(Since(history, tag) + {tag}, Residents(ways) - {evicted});
        }
      }
    }
  }

  // The line idle the longest is the last of the recency order: every other resident
  // was accessed since.
  lemma VictimIsOldest<V>(ways: seq<Way<V>>, history: seq<nat>, victim: nat)
    requires Unique(ways) && Counted(ways, history) && Full(ways) && Longest(ways, history, victim)
    ensures Residents(ways) - {ways[victim].tag} <= Since(history, ways[victim].tag)
  {
    var evicted := ways[victim].tag;
    forall tag | tag in Residents(ways) && tag != evicted
      ensures tag in Since(history, evicted)
    {
      var w :| 0 <= w < |ways| && ways[w].isValid && ways[w].tag == tag;
      assert Age(history, ways[w].tag) <= Age(history, evicted);
      SinceIsLater(history, evicted, tag);
    }
  }

  // Every line but the longest idle one stays recent when another line is accessed.
  lemma OnlyTheLongestTurnsStale<V>(ways: seq<Way<V>>, history: seq<nat>, missed: nat, w: nat)
    requires Tracks(ways, history) && !Resident(ways, missed) && Full(ways)
    requires w < |ways| && !Longest(ways, history, w)
    ensures Recent(history + [missed], ways[w].tag, |ways|)
  {
    var tag := ways[w].tag;
    var longer :| 0 <= longer < |ways| && Age(history, ways[longer].tag) > Age(history, tag);
    var other := ways[longer].tag;
    assert Holds(ways[w], tag) && Resident(ways, tag) && Holds(ways[longer], other) && Resident(ways, other);
    ResidentCount(ways);
    MoreRecentAreResident(ways, history, tag);
    SinceIsLater(history, tag, other);
    SubsetSize(Since(history, tag) + {tag}, Residents(ways) - {other});
    SinceSnoc(history, missed, tag);
    MissedNotSince(ways, history, missed, tag);
  }

  lemma MissedNotSince<V>(ways: seq<Way<V>>, history: seq<nat>, missed: nat, tag: nat)
    requires Tracks(ways, history) && !Resident(ways, missed) && Resident(ways, tag)
    ensures tag in history && missed !in Since(history, tag)
  {
    if missed in Since(history, tag) {
      MoreRecentAreResident(ways, history, tag);
    }
  }

  // ------ Runs of accesses to one set

  // A counter that wraps around still is the age modulo 2^32, however long the run.
  lemma CountedStep<V>(ways: seq<Way<V>>, history: seq<nat>, w: nat, tag: nat, value: V)
    requires Counted(ways, history) && w < |ways|
    requires forall k :: 0 <= k < |ways| && k != w && ways[k].isValid ==> ways[k].tag != tag
    ensures Counted(Place(ways, w, tag, value), history + [tag])
  {
    var after := Place(ways, w, tag, value);
    forall k | 0 <= k < |after| && after[k].isValid
      ensures after[k].tag in history + [tag]
      ensures after[k].age == Age(history + [tag], after[k].tag) % WORD
    {
      SinceSnoc(history, tag, after[k].tag);
      if k != w {
        AgeWraps(Age(history, ways[k].tag));
      }
    }
  }

  lemma AgeWraps(age: nat)
    ensures Increment(age % WORD) == (age + 1) % WORD
  {
    var low := age % WORD;
    assert age == age / WORD * WORD + low;
    if low + 1 == WORD {
      assert age + 1 == (age / WORD + 1) * WORD;
    } else {
      assert age + 1 == age / WORD * WORD + (low + 1);
    }
  }

  lemma ResidentAfterPlace<V>(ways: seq<Way<V>>, w: nat, tag: nat, value: V, other: nat)
    requires w < |ways| && Unique(ways)
    ensures Resident(Place(ways, w, tag, value), other)
      <==> other == tag || (Resident(ways, other) && !Holds(ways[w], other))
  {
    var after := Place(ways, w, tag, value);
    if other == tag {
      assert Holds(after[w], other);
    }
    if k :| 0 <= k < |ways| && Holds(ways[k], other) && k != w {
      assert Holds(after[k], other);
    }
  }

  lemma PlaceKeepsUnique<V>(ways: seq<Way<V>>, w: nat, tag: nat, value: V)
    requires Unique(ways) && w < |ways|
    requires forall k :: 0 <= k < |ways| && k != w && ways[k].isValid ==> ways[k].tag != tag
    ensures Unique(Place(ways, w, tag, value))
  {
  }

  lemma HitStep<V>(ways: seq<Way<V>>, history: seq<nat>, w: nat)
    requires Unique(ways) && Counted(ways, history)
    requires w < |ways| && ways[w].isValid
    ensures Unique(Touch(ways, w)) && Counted(Touch(ways, w), history + [ways[w].tag])
    ensures ResidentsAreRecent(ways, history) ==> ResidentsAreRecent(Touch(ways, w), history + [ways[w].tag])
  {
    var tag, after := ways[w].tag, Touch(ways, w);
    assert Place(ways, w, tag, ways[w].value) == after;
    CountedStep(ways, history, w, tag, ways[w].value);
    PlaceKeepsUnique(ways, w, tag, ways[w].value);
    assert Holds(ways[w], tag) && Resident(ways, tag);
    if ResidentsAreRecent(ways, history) {
      forall other
        ensures Resident(after, other) <==> Recent(history + [tag], other, |after|)
      {
        ResidentAfterPlace(ways, w, tag, ways[w].value, other);
        HitKeepsRecent(history, tag, other, |ways|);
      }
    }
  }

  // A miss fills an empty way, or evicts the way that looks oldest.
  lemma MissTarget<V>(ways: seq<Way<V>>, tag: nat)
    requires ways != [] && !Resident(ways, tag)
    ensures Target(ways, Victim(ways)) < |ways|
    ensures forall k :: 0 <= k < |ways| && ways[k].isValid ==> ways[k].tag != tag
    ensures Full(ways) ==> Target(ways, Victim(ways)) == Victim(ways)
    ensures !Full(ways) ==> !ways[Target(ways, Victim(ways))].isValid
  {
    EmptyFromMeaning(ways, 0);
    forall k | 0 <= k < |ways| && ways[k].isValid
      ensures ways[k].tag != tag
    {
      assert Holds(ways[k], tag) ==> Resident(ways, tag);
    }
  }

  lemma MissStep<V>(ways: seq<Way<V>>, history: seq<nat>, tag: nat, value: V)
    requires Unique(ways) && Counted(ways, history)
    requires ways != [] && !Resident(ways, tag)
    ensures Unique(WriteSet(ways, tag, value)) && Counted(WriteSet(ways, tag, value), history + [tag])
  {
    MissTarget(ways, tag);
    CountedStep(ways, history, Target(ways, Victim(ways)), tag, value);
    PlaceKeepsUnique(ways, Target(ways, Victim(ways)), tag, value);
  }

  // What the set holds after a miss is what it should hold exactly when nothing was
  // evicted or the evicted line was idle the longest.
  lemma MissIsRight<V>(ways: seq<Way<V>>, history: seq<nat>, tag: nat, value: V)
    requires Tracks(ways, history) && ways != [] && !Resident(ways, tag)
    ensures ResidentsAreRecent(WriteSet(ways, tag, value), history + [tag])
      <==> (Full(ways) ==> Longest(ways, history, Victim(ways)))
  {
    MissTarget(ways, tag);
    var w := Target(ways, Victim(ways));
    var after := Place(ways, w, tag, value);
    assert WriteSet(ways, tag, value) == after;
    if Full(ways) && !Longest(ways, history, w) {
      var evicted := ways[w].tag;
      OnlyTheLongestTurnsStale(ways, history, tag, w);
      ResidentAfterEviction(ways, w, tag, value);
    } else {
      forall other
        ensures Resident(after, other) <==> Recent(history + [tag], other, |after|)
      {
        ResidentAfterPlace(ways, w, tag, value, other);
        if other == tag {
          SinceSnoc(history, tag, tag);
        } else if Full(ways) {
          EvictionKeepsRecent(ways, history, tag, w, other);
        } else {
          FillKeepsRecent(ways, history, tag, other);
        }
      }
    }
  }

  lemma ResidentAfterEviction<V>(ways: seq<Way<V>>, w: nat, tag: nat, value: V)
    requires Unique(ways) && w < |ways| && ways[w].isValid && ways[w].tag != tag
    ensures !Resident(Place(ways, w, tag, value), ways[w].tag)
  {
    ResidentAfterPlace(ways, w, tag, value, ways[w].tag);
    if Resident(ways, ways[w].tag) {
      assert Holds(ways[w], ways[w].tag);
    }
  }

  // The access finds its line, or a free way, or the line idle the longest also looks it.
  ghost predicate EvictsLongest<V>(ways: seq<Way<V>>, history: seq<nat>, tag: nat)
    requires Counted(ways, history)
  {
    !Resident(ways, tag) && Full(ways) ==>
      exists w :: LooksOldest(ways, history, w) && Longest(ways, history, w)
  }

  // The counters are ages modulo 2^32 in any run, and the set goes on holding what it
  // should exactly when the wrapped counters pick the right line.
  lemma AccessStep<V>(ways: seq<Way<V>>, history: seq<nat>, tag: nat, value: V)
    requires Unique(ways) && Counted(ways, history) && ways != []
    ensures Unique(AccessSet(ways, tag, value)) && Counted(AccessSet(ways, tag, value), history + [tag])
    ensures ResidentsAreRecent(ways, history) ==>
      (ResidentsAreRecent(AccessSet(ways, tag, value), history + [tag]) <==> EvictsLongest(ways, history, tag))
  {
    FindFromMeaning(ways, tag, 0);
    match Find(ways, tag)
    case Some(w) =>
      HitStep(ways, history, w);
      assert Resident(ways, tag);
    case None =>
      MissStep(ways, history, tag, value);
      if Full(ways) {
        VictimLooksOldest(ways, history, Victim(ways));
        forall w | LooksOldest(ways, history, w)
          ensures w == Victim(ways)
        {
          VictimLooksOldest(ways, history, w);
        }
      }
      if ResidentsAreRecent(ways, history) {
        MissIsRight(ways, history, tag, value);
      }
  }

  lemma SteadyStep<V>(ways: seq<Way<V>>, history: seq<nat>, tag: nat)
    requires Tracks(ways, history) && NoneIdle(history, |ways|) && ways != []
    ensures EvictsLongest(ways, history, tag)
  {
    if Full(ways) {
      VictimIsLongest(ways, history);
      VictimLooksOldest(ways, history, Victim(ways));
    }
  }

  lemma ReadHitsResidents<V>(ways: seq<Way<V>>, tag: nat)
    ensures ReadSet(ways, tag).1.Some? <==> Resident(ways, tag)
  {
    FindFromMeaning(ways, tag, 0);
  }

  // ------ Runs of accesses to the whole cache

  datatype Access<V> = Access(addr: Address, value: V)

  // Read, and on a miss write.
  function AccessCache<V>(split: Split, sets: seq<seq<Way<V>>>, access: Access<V>): (after: seq<seq<Way<V>>>)
    requires split.Valid()
    ensures |after| == |sets|
  {
    var index := split.GetIndex(access.addr);
    if index < |sets| && sets[index] != [] then
      sets[index := AccessSet(sets[index], split.GetTag(access.addr), access.value)]
    else sets
  }

  function EmptyCache<V>(split: Split, numWays: nat, zero: V): seq<seq<Way<V>>> {
    seq(split.NumSets(), s => seq(numWays, w => Way(false, 0, zero, 0)))
  }

  function CacheAfter<V>(split: Split, numWays: nat, zero: V, accesses: seq<Access<V>>): (sets: seq<seq<Way<V>>>)
    requires split.Valid()
    ensures |sets| == split.NumSets()
  {
    if accesses == [] then EmptyCache(split, numWays, zero) else
    var n := |accesses| - 1;
    AccessCache(split, CacheAfter(split, numWays, zero, accesses[..n]), accesses[n])
  }

  // The accesses one set gets to see.
  function TagsIn<V>(split: Split, accesses: seq<Access<V>>, index: nat): (tags: seq<nat>)
    requires split.Valid()
    ensures |tags| <= |accesses|
  {
    if accesses == [] then [] else
    var n := |accesses| - 1;
    var before := TagsIn(split, accesses[..n], index);
    if split.GetIndex(accesses[n].addr) == index then before + [split.GetTag(accesses[n].addr)] else before
  }

  // In any run each counter is the age of its line modulo 2^32.
  lemma {:induction false} CacheCounts<V>(
    split: Split, numWays: nat, zero: V, accesses: seq<Access<V>>, index: nat)
    requires split.Valid() && 1 <= numWays && index < split.NumSets()
    ensures |CacheAfter(split, numWays, zero, accesses)[index]| == numWays
    ensures Unique(CacheAfter(split, numWays, zero, accesses)[index])
    ensures Counted(CacheAfter(split, numWays, zero, accesses)[index], TagsIn(split, accesses, index))
  {
    if accesses != [] {
      var n := |accesses| - 1;
      CacheCounts(split, numWays, zero, accesses[..n], index);
      if split.GetIndex(accesses[n].addr) == index {
        AccessStep(CacheAfter(split, numWays, zero, accesses[..n])[index], TagsIn(split, accesses[..n], index),
                   split.GetTag(accesses[n].addr), accesses[n].value);
      }
    }
  }

  lemma {:induction false} CacheTracks<V>(
    split: Split, numWays: nat, zero: V, accesses: seq<Access<V>>, index: nat)
    requires split.Valid() && 1 <= numWays && index < split.NumSets()
    requires Steady(TagsIn(split, accesses, index), numWays)
    ensures |CacheAfter(split, numWays, zero, accesses)[index]| == numWays
    ensures Tracks(CacheAfter(split, numWays, zero, accesses)[index], TagsIn(split, accesses, index))
  {
    CacheCounts(split, numWays, zero, accesses, index);
    if accesses != [] {
      var n := |accesses| - 1;
      if split.GetIndex(accesses[n].addr) == index {
        var ways, tags := CacheAfter(split, numWays, zero, accesses[..n])[index], TagsIn(split, accesses[..n], index);
        var tag := split.GetTag(accesses[n].addr);
        assert (tags + [tag])[..|tags|] == tags;
        CacheTracks(split, numWays, zero, accesses[..n], index);
        SteadyStep(ways, tags, tag);
        AccessStep(ways, tags, tag, accesses[n].value);
      } else {
        CacheTracks(split, numWays, zero, accesses[..n], index);
      }
    }
  }

  predicate Touched<V>(split: Split, accesses: seq<Access<V>>, addr: Address) {
    exists i :: 0 <= i < |accesses| && split.Line(accesses[i].addr) == split.Line(addr)
  }

  // The distinct other lines of the same set accessed since the line of `addr` was.
  function LinesSince<V>(split: Split, accesses: seq<Access<V>>, addr: Address): set<nat>
    requires split.Valid()
  {
    if accesses == [] then {} else
    var n := |accesses| - 1;
    var last := accesses[n].addr;
    if split.Line(last) == split.Line(addr) then {} else
    LinesSince(split, accesses[..n], addr)
      + (if split.GetIndex(last) == split.GetIndex(addr) then {split.Line(last)} else {})
  }

  lemma {:induction false} TouchedIsTagged<V>(split: Split, accesses: seq<Access<V>>, addr: Address)
    requires split.Valid()
    ensures Touched(split, accesses, addr)
      <==> split.GetTag(addr) in TagsIn(split, accesses, split.GetIndex(addr))
  {
    if accesses != [] {
      var n := |accesses| - 1;
      TouchedIsTagged(split, accesses[..n], addr);
      SameTagAndIndex(split, accesses[n].addr, addr);
      if Touched(split, accesses[..n], addr) {
        var i :| 0 <= i < n && split.Line(accesses[..n][i].addr) == split.Line(addr);
        assert split.Line(accesses[i].addr) == split.Line(addr);
      }
    }
  }

  lemma {:induction false} LineIsTag<V>(split: Split, accesses: seq<Access<V>>, addr: Address, other: Address)
    requires split.Valid() && Touched(split, accesses, addr)
    requires split.GetIndex(other) == split.GetIndex(addr)
    ensures split.GetTag(addr) in TagsIn(split, accesses, split.GetIndex(addr))
    ensures split.Line(other) in LinesSince(split, accesses, addr)
      <==> split.GetTag(other) in Since(TagsIn(split, accesses, split.GetIndex(addr)), split.GetTag(addr))
  {
    TouchedIsTagged(split, accesses, addr);
    var n := |accesses| - 1;
    var last := accesses[n].addr;
    SameTagAndIndex(split, last, addr);
    SameTagAndIndex(split, last, other);
    if split.Line(last) != split.Line(addr) {
      TouchedIsTagged(split, accesses[..n], addr);
      LineIsTag(split, accesses[..n], addr, other);
      if split.GetIndex(last) == split.GetIndex(addr) {
        SinceSnoc(TagsIn(split, accesses[..n], split.GetIndex(addr)), split.GetTag(last), split.GetTag(addr));
      }
    }
  }

  lemma SizeWithOne(a: set<nat>, x: nat)
    ensures |a + {x}| == |a| + (if x in a then 0 else 1)
    ensures a + {x} == {x} + a
  {
    if x in a {
      assert a + {x} == a;
    }
  }

  // Counting lines and counting tags of the set is the same.
  lemma {:induction false} AsManyLinesAsTags<V>(split: Split, accesses: seq<Access<V>>, addr: Address)
    requires split.Valid() && Touched(split, accesses, addr)
    ensures split.GetTag(addr) in TagsIn(split, accesses, split.GetIndex(addr))
    ensures |LinesSince(split, accesses, addr)|
      == |Since(TagsIn(split, accesses, split.GetIndex(addr)), split.GetTag(addr))|
  {
    TouchedIsTagged(split, accesses, addr);
    var n := |accesses| - 1;
    var last := accesses[n].addr;
    SameTagAndIndex(split, last, addr);
    if split.Line(last) != split.Line(addr) {
      TouchedIsTagged(split, accesses[..n], addr);
      AsManyLinesAsTags(split, accesses[..n], addr);
      if split.GetIndex(last) == split.GetIndex(addr) {
        var before := TagsIn(split, accesses[..n], split.GetIndex(addr));
        LineIsTag(split, accesses[..n], addr, last);
        SinceSnoc(before, split.GetTag(last), split.GetTag(addr));
        SizeWithOne(LinesSince(split, accesses[..n], addr), split.Line(last));
        SizeWithOne(Since(before, split.GetTag(addr)), split.GetTag(last));
      }
    }
  }

  // What reading the address would do after these accesses.
  predicate Hits<V>(split: Split, numWays: nat, zero: V, accesses: seq<Access<V>>, addr: Address)
    requires split.Valid()
  {
    var index := split.GetIndex(addr);
    && index < split.NumSets()
    && ReadSet(CacheAfter(split, numWays, zero, accesses)[index], split.GetTag(addr)).1.Some?
  }

  // The line was accessed before, and fewer than numWays distinct other lines of its set
  // were accessed since.
  predicate RecentlyAccessed<V>(split: Split, numWays: nat, accesses: seq<Access<V>>, addr: Address)
    requires split.Valid()
  {
    Touched(split, accesses, addr) && |LinesSince(split, accesses, addr)| < numWays
  }

  lemma RecentlyAccessedIsRecent<V>(split: Split, numWays: nat, accesses: seq<Access<V>>, addr: Address)
    requires split.Valid()
    ensures RecentlyAccessed(split, numWays, accesses, addr)
      <==> Recent(TagsIn(split, accesses, split.GetIndex(addr)), split.GetTag(addr), numWays)
  {
    TouchedIsTagged(split, accesses, addr);
    if Touched(split, accesses, addr) {
      AsManyLinesAsTags(split, accesses, addr);
    }
  }

  // The main result. After any run of accesses in which no line of the set that was
  // still recent had been idle for 2^32 accesses to the set, reading an address hits
  // exactly when its line is recent.
  lemma HitIffRecentlyUsed<V>(split: Split, numWays: nat, zero: V, accesses: seq<Access<V>>, addr: Address)
    requires split.Valid() && 1 <= numWays
    requires Steady(TagsIn(split, accesses, split.GetIndex(addr)), numWays)
    ensures Hits(split, numWays, zero, accesses, addr) <==> RecentlyAccessed(split, numWays, accesses, addr)
  {
    IndexInRange(split, addr);
    var index, tag := split.GetIndex(addr), split.GetTag(addr);
    CacheTracks(split, numWays, zero, accesses, index);
    ReadHitsResidents(CacheAfter(split, numWays, zero, accesses)[index], tag);
    RecentlyAccessedIsRecent(split, numWays, accesses, addr);
  }

  // The cache itself, read, and written on a miss.
  method ReadOrWrite<V(0)>(cache: CacheMemory<V>, access: Access<V>) returns (hit: bool)
    requires cache.Valid()
    modifies cache.Repr()
    ensures cache.Valid() && cache.Sets == AccessCache(cache.split, old(cache.Sets), access)
    ensures hit <==>
      ReadSet(old(cache.Sets)[cache.GetIndex(access.addr)], cache.split.GetTag(access.addr)).1.Some?
  {
    var value := cache.Read(access.addr);
    hit := value.Some?;
    if !hit {
      cache.Write(access.addr, access.value);
    }
  }

  method NewCache<V(0)>(split: Split, numWays: nat, zero: V) returns (cache: CacheMemory<V>)
    requires split.Valid() && 1 <= numWays
    ensures cache.Valid() && cache.split == split && fresh(cache.Repr())
    ensures cache.Sets == EmptyCache(split, numWays, zero)
  {
    cache := new CacheMemory<V>.Alocate(split, numWays, zero);
    assert forall k :: 0 <= k < cache.numSets ==> cache.Sets[k] == EmptyCache(split, numWays, zero)[k];
  }

  method RunAccesses<V(0)>(split: Split, numWays: nat, zero: V, accesses: seq<Access<V>>, addr: Address, value: V)
    returns (hit: bool)
    requires split.Valid() && 1 <= numWays
    requires Steady(TagsIn(split, accesses, split.GetIndex(addr)), numWays)
    ensures hit <==> RecentlyAccessed(split, numWays, accesses, addr)
  {
    var cache := NewCache(split, numWays, zero);
    for n := 0 to |accesses|
      invariant cache.Valid() && cache.split == split && fresh(cache.Repr())
      invariant cache.Sets == CacheAfter(split, numWays, zero, accesses[..n])
    {
      assert accesses[..n + 1][..n] == accesses[..n];
      var found := ReadOrWrite(cache, accesses[n]);
    }
    assert accesses[..|accesses|] == accesses;
    hit := ReadOrWrite(cache, Access(addr, value));
    HitIffRecentlyUsed(split, numWays, zero, accesses, addr);
  }

  // ------ Exactly when a run is served as the recency of its lines says

  ghost predicate AllRight<V>(split: Split, numWays: nat, zero: V, accesses: seq<Access<V>>)
    requires split.Valid()
  {
    forall addr: Address ::
      Hits(split, numWays, zero, accesses, addr) <==> RecentlyAccessed(split, numWays, accesses, addr)
  }

  ghost predicate AlwaysRight<V>(split: Split, numWays: nat, zero: V, accesses: seq<Access<V>>)
    requires split.Valid()
  {
    && AllRight(split, numWays, zero, accesses)
    && (accesses != [] ==> AlwaysRight(split, numWays, zero, accesses[..|accesses| - 1]))
  }

  // Each miss in a full set finds the longest idle line with the first largest counter.
  ghost predicate AlwaysEvictsLongest<V>(split: Split, numWays: nat, zero: V, accesses: seq<Access<V>>)
    requires split.Valid() && 1 <= numWays
  {
    accesses != [] ==>
      && AlwaysEvictsLongest(split, numWays, zero, accesses[..|accesses| - 1])
      && LastEvictsLongest(split, numWays, zero, accesses)
  }

  ghost predicate AllTrack<V>(split: Split, numWays: nat, zero: V, accesses: seq<Access<V>>)
    requires split.Valid()
  {
    forall index :: 0 <= index < split.NumSets() ==>
      ResidentsAreRecent(CacheAfter(split, numWays, zero, accesses)[index], TagsIn(split, accesses, index))
  }

  lemma {:induction false} TaggedIsAccessed<V>(split: Split, accesses: seq<Access<V>>, index: nat, tag: nat)
    returns (i: nat)
    requires split.Valid() && tag in TagsIn(split, accesses, index)
    ensures i < |accesses| && split.GetIndex(accesses[i].addr) == index && split.GetTag(accesses[i].addr) == tag
  {
    var n := |accesses| - 1;
    if split.GetIndex(accesses[n].addr) == index && split.GetTag(accesses[n].addr) == tag {
      i := n;
    } else {
      i := TaggedIsAccessed(split, accesses[..n], index, tag);
    }
  }

  lemma RightIffTrack<V>(split: Split, numWays: nat, zero: V, accesses: seq<Access<V>>)
    requires split.Valid() && 1 <= numWays
    ensures AllRight(split, numWays, zero, accesses) <==> AllTrack(split, numWays, zero, accesses)
  {
    if AllRight(split, numWays, zero, accesses) {
      forall index | 0 <= index < split.NumSets()
        ensures ResidentsAreRecent(CacheAfter(split, numWays, zero, accesses)[index], TagsIn(split, accesses, index))
      {
        CacheCounts(split, numWays, zero, accesses, index);
        var ways, tags := CacheAfter(split, numWays, zero, accesses)[index], TagsIn(split, accesses, index);
        forall tag
          ensures Resident(ways, tag) <==> Recent(tags, tag, |ways|)
        {
          if tag in tags {
            var i := TaggedIsAccessed(split, accesses, index, tag);
            ReadHitsResidents(ways, tag);
            RecentlyAccessedIsRecent(split, numWays, accesses, accesses[i].addr);
          }
        }
      }
    }
    if AllTrack(split, numWays, zero, accesses) {
      forall addr: Address
        ensures Hits(split, numWays, zero, accesses, addr) <==> RecentlyAccessed(split, numWays, accesses, addr)
      {
        IndexInRange(split, addr);
        CacheCounts(split, numWays, zero, accesses, split.GetIndex(addr));
        ReadHitsResidents(CacheAfter(split, numWays, zero, accesses)[split.GetIndex(addr)], split.GetTag(addr));
        RecentlyAccessedIsRecent(split, numWays, accesses, addr);
      }
    }
  }

  lemma OtherSetsStay<V>(split: Split, numWays: nat, zero: V, accesses: seq<Access<V>>, index: nat)
    requires split.Valid() && accesses != [] && index < split.NumSets()
    requires index != split.GetIndex(accesses[|accesses| - 1].addr)
    ensures CacheAfter(split, numWays, zero, accesses)[index]
      == CacheAfter(split, numWays, zero, accesses[..|accesses| - 1])[index]
    ensures TagsIn(split, accesses, index) == TagsIn(split, accesses[..|accesses| - 1], index)
  {
  }

  // The set of the last access, and the access it gets.
  lemma LastSet<V>(split: Split, numWays: nat, zero: V, accesses: seq<Access<V>>)
    requires split.Valid() && 1 <= numWays && accesses != []
    ensures var n := |accesses| - 1;
      var index, tag := split.GetIndex(accesses[n].addr), split.GetTag(accesses[n].addr);
      && index < split.NumSets()
      && |CacheAfter(split, numWays, zero, accesses[..n])[index]| == numWays
      && CacheAfter(split, numWays, zero, accesses)[index]
        == AccessSet(CacheAfter(split, numWays, zero, accesses[..n])[index], tag, accesses[n].value)
      && TagsIn(split, accesses, index) == TagsIn(split, accesses[..n], index) + [tag]
  {
    var n := |accesses| - 1;
    IndexInRange(split, accesses[n].addr);
    CacheCounts(split, numWays, zero, accesses[..n], split.GetIndex(accesses[n].addr));
  }

  ghost predicate LastEvictsLongest<V>(split: Split, numWays: nat, zero: V, accesses: seq<Access<V>>)
    requires split.Valid() && 1 <= numWays && accesses != []
  {
    var n := |accesses| - 1;
    var index := split.GetIndex(accesses[n].addr);
    IndexInRange(split, accesses[n].addr);
    CacheCounts(split, numWays, zero, accesses[..n], index);
    EvictsLongest(CacheAfter(split, numWays, zero, accesses[..n])[index], TagsIn(split, accesses[..n], index),
                  split.GetTag(accesses[n].addr))
  }

  lemma OneMoreTracks<V>(split: Split, numWays: nat, zero: V, accesses: seq<Access<V>>)
    requires split.Valid() && 1 <= numWays && accesses != []
    requires AllTrack(split, numWays, zero, accesses[..|accesses| - 1])
    ensures AllTrack(split, numWays, zero, accesses) <==> LastEvictsLongest(split, numWays, zero, accesses)
  {
    var n := |accesses| - 1;
    var before, last := accesses[..n], accesses[n];
    var at := split.GetIndex(last.addr);
    LastSet(split, numWays, zero, accesses);
    CacheCounts(split, numWays, zero, before, at);
    var ways, tags := CacheAfter(split, numWays, zero, before)[at], TagsIn(split, before, at);
    assert ResidentsAreRecent(ways, tags);
    AccessStep(ways, tags, split.GetTag(last.addr), last.value);
    forall index | 0 <= index < split.NumSets() && index != at
      ensures ResidentsAreRecent(CacheAfter(split, numWays, zero, accesses)[index], TagsIn(split, accesses, index))
    {
      OtherSetsStay(split, numWays, zero, accesses, index);
      assert ResidentsAreRecent(CacheAfter(split, numWays, zero, before)[index], TagsIn(split, before, index));
    }
  }

  // Every address hits when its line is recent and misses when not, after every access
  // of a run, if and only if every eviction finds the longest idle line with the first
  // largest counter.
  lemma {:induction false} RightIffEvictsLongest<V>(split: Split, numWays: nat, zero: V, accesses: seq<Access<V>>)
    requires split.Valid() && 1 <= numWays
    ensures AlwaysRight(split, numWays, zero, accesses) <==> AlwaysEvictsLongest(split, numWays, zero, accesses)
  {
    RightIffTrack(split, numWays, zero, accesses);
    if accesses == [] {
      forall index | 0 <= index < split.NumSets()
        ensures ResidentsAreRecent(CacheAfter(split, numWays, zero, accesses)[index], TagsIn(split, accesses, index))
      {
      }
    } else {
      var before := accesses[..|accesses| - 1];
      RightIffEvictsLongest(split, numWays, zero, before);
      RightIffTrack(split, numWays, zero, before);
      if AlwaysRight(split, numWays, zero, before) {
        assert AllRight(split, numWays, zero, before);
        OneMoreTracks(split, numWays, zero, accesses);
      }
    }
  }
}
