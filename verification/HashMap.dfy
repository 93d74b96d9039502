// The map of the configuration parser (src/utils/map.hpp, src/utils/map.cpp): chained
// buckets, a rolling hash in 32 bits, and an iterator that can be resumed.
module HashMaps {
  import opened Sequences
  import opened Wrappers

  const P: nat := 71
  const M: nat := 4096
  const WORD: nat := 0x1_0000_0000

  newtype byte = b: int | 0 <= b < 256

  type Key = seq<byte>

  // ------ The hash

  function Power(i: nat): nat {
    if i == 0 then 1 else Power(i - 1) * P
  }

  // The polynomial without bound on its value.
  function Polynomial(key: Key, count: nat): nat
    requires count <= |key|
  {
    if count == 0 then 0 else Polynomial(key, count - 1) + key[count - 1] as nat * Power(count - 1)
  }

  function Bucket(key: Key): nat {
    Polynomial(key, |key|) % M
  }

  // The hash of three bytes, and a key of two with its bucket.
  lemma HashOfThree(a: byte, b: byte, c: byte)
    ensures Bucket([a, b, c]) == (a as nat + 71 * b as nat + 5041 * c as nat) % 4096
    ensures Bucket([97, 98]) == 2959
  {
    var key := [a, b, c];
    assert Power(0) == 1 && Power(1) == 71 && Power(2) == 5041;
    assert Polynomial(key, 1) == a as nat * 1 && Polynomial(key, 2) == a as nat + b as nat * 71;
    var two: Key := [97, 98];
    assert Polynomial(two, 1) == 97 && Polynomial(two, 2) == 97 + 98 * 71;
  }

  // Dropping whole words changes nothing below the word.
  lemma SumDropsWords(a: nat, b: nat, c: nat, p: nat, high: nat)
    requires b == p + high * WORD
    ensures a + c * b == a + c * p + c * high * WORD
  {
    assert c * b == c * p + c * (high * WORD);
  }

  // 32-bit arithmetic loses nothing that the table size could see.
  method Hash(buffer: Key) returns (pos: nat)
    ensures pos == Bucket(buffer) < M
  {
    if |buffer| <= 0 {
      return 0;
    }
    var s: nat, p: nat := buffer[0] as nat, P;
    ghost var sHigh, pHigh := 0, 0;
    assert Power(0) == 1 && Power(1) == P;
    for i := 1 to |buffer|
      invariant Polynomial(buffer, i) == s + sHigh * WORD
      invariant Power(i) == p + pHigh * WORD
      invariant sHigh >= 0 && pHigh >= 0
    {
      var c := buffer[i] as nat;
      SumDropsWords(s, Power(i), c, p, pHigh);
      var sum, product := s + c * p, p * P;
      sHigh := sHigh + c * pHigh + sum / WORD;
      pHigh := pHigh * P + product / WORD;
      s := sum % WORD;
      p := product % WORD;
      assert Polynomial(buffer, i + 1) == Polynomial(buffer, i) + c * Power(i);
      assert Power(i + 1) == Power(i) * P;
    }
    pos := s % M;
    assert Bucket(buffer) == pos by {
      LowBitsOfSum(s, sHigh);
    }
  }

  lemma LowBitsOfSum(s: nat, high: nat)
    ensures (s + high * WORD) % M == s % M
  {
    var words := high * 0x10_0000;
    assert high * WORD == words * M;
    assert s == s / M * M + s % M;
    assert s + high * WORD == (s / M + words) * M + s % M;
  }

  // ------ The map

  type Pair<V> = (Key, V)

  // The inserted pairs that belong into a bucket.
  function InBucket<V>(inserted: seq<Pair<V>>, b: nat): seq<Pair<V>> {
    if inserted == [] then []
    else
      var last := |inserted| - 1;
      InBucket(inserted[..last], b) + if Bucket(inserted[last].0) == b then [inserted[last]] else []
  }

  lemma OneMoreInBucket<V>(inserted: seq<Pair<V>>, pair: Pair<V>, b: nat)
    ensures InBucket(inserted + [pair], b)
      == if Bucket(pair.0) == b then InBucket(inserted, b) + [pair] else InBucket(inserted, b)
  {
    assert (inserted + [pair])[..|inserted|] == inserted;
  }

  // Bucket after bucket, beginning with bucket `b`.
  function FromBucket<V>(inserted: seq<Pair<V>>, b: nat): seq<Pair<V>>
    decreases M - b
  {
    if b >= M then [] else InBucket(inserted, b) + FromBucket(inserted, b + 1)
  }

  // The value of the first pair with the key.
  function First<V>(pairs: seq<Pair<V>>, key: Key): Option<V> {
    if pairs == [] then None
    else
      var last := |pairs| - 1;
      var before := First(pairs[..last], key);
      if before.Some? then before else if pairs[last].0 == key then Some(pairs[last].1) else None
  }

  // The first pair with the key gives the value; without such a pair there is none.
  lemma {:induction false} FirstIsFirst<V>(pairs: seq<Pair<V>>, key: Key)
    ensures match First(pairs, key)
      case None => forall i :: 0 <= i < |pairs| ==> pairs[i].0 != key
      case Some(value) => exists i ::
        && 0 <= i < |pairs| && pairs[i] == (key, value)
        && forall j :: 0 <= j < i ==> pairs[j].0 != key
  {
    if pairs != [] {
      var last := |pairs| - 1;
      var before := pairs[..last];
      FirstIsFirst(before, key);
      if First(before, key).Some? {
        var i :| 0 <= i < |before| && before[i] == (key, First(before, key).value)
          && forall j :: 0 <= j < i ==> before[j].0 != key;
        assert pairs[i] == before[i];
      }
    }
  }

  class Node<V> {
    const key: Key
    const value: V
    var next: Node?<V>
    ghost const bucket: nat
    ghost const place: nat

    constructor (key: Key, value: V, ghost bucket: nat, ghost place: nat)
      ensures this.key == key && this.value == value && this.bucket == bucket && this.place == place
      ensures next == null
    {
      this.key, this.value, this.bucket, this.place := key, value, bucket, place;
      next := null;
    }
  }

  // The node at a place of a chain; null behind its end.
  function NodeAt<V>(chain: seq<Node<V>>, i: nat): Node?<V> {
    if i < |chain| then chain[i] else null
  }

  ghost predicate Chained<V>(chain: seq<Node<V>>, b: nat)
    reads chain
  {
    && (forall i :: 0 <= i < |chain| ==> chain[i].bucket == b && chain[i].place == i)
    && (forall i {:trigger chain[i].next} :: 0 <= i < |chain| ==> chain[i].next == NodeAt(chain, i + 1))
  }

  function Pairs<V>(chain: seq<Node<V>>): (pairs: seq<Pair<V>>)
    ensures |pairs| == |chain|
  {
    if chain == [] then []
    else
      var last := |chain| - 1;
      Pairs(chain[..last]) + [(chain[last].key, chain[last].value)]
  }

  lemma {:induction false} PairAt<V>(chain: seq<Node<V>>, i: nat)
    requires i < |chain|
    ensures Pairs(chain)[i] == (chain[i].key, chain[i].value)
  {
    if i < |chain| - 1 {
      PairAt(chain[..|chain| - 1], i);
    }
  }

  // The chain that starts at a node holds what was inserted into the bucket.
  ghost predicate ChainHolds<V>(start: Node?<V>, chain: seq<Node<V>>, inserted: seq<Pair<V>>, b: nat)
    reads chain
  {
    start == NodeAt(chain, 0) && Chained(chain, b) && Pairs(chain) == InBucket(inserted, b)
  }

  class Map<V> {
    const table: array<Node?<V>>
    var iteratorPtr: Node?<V>
    var iteratorIdx: nat
    ghost var inserted: seq<Pair<V>>
    ghost var chains: seq<seq<Node<V>>>
    ghost var nodes: set<Node<V>>

    // Bucket `b` is the chain of its nodes, which hold the pairs inserted into it.
    ghost predicate Holds(b: nat)
      requires b < table.Length == |chains|
      requires forall i :: 0 <= i < |chains[b]| ==> chains[b][i] in nodes
      reads this`inserted, this`chains, this`nodes, table, nodes
    {
      ChainHolds(table[b], chains[b], inserted, b)
    }

    ghost predicate Linked()
      reads this`inserted, this`chains, this`nodes, table, nodes
    {
      && table.Length == M == |chains|
      && (forall b, i :: 0 <= b < M && 0 <= i < |chains[b]| ==> chains[b][i] in nodes)
      && (forall b :: 0 <= b < M ==> Holds(b))
    }

    // The iterator stands on a node, or before the first bucket.
    ghost predicate OnNode()
      reads this
    {
      && iteratorIdx < M == |chains|
      && (iteratorPtr == null ==> iteratorIdx == 0)
      && (iteratorPtr != null ==>
        iteratorPtr.place < |chains[iteratorIdx]| && chains[iteratorIdx][iteratorPtr.place] == iteratorPtr)
    }

    ghost predicate Valid()
      reads this, table, nodes
    {
      Linked() && OnNode()
    }

    // What the iterator has not given yet.
    ghost function Rest(): seq<Pair<V>>
      requires OnNode()
      reads this
    {
      if iteratorPtr == null then FromBucket(inserted, iteratorIdx)
      else Pairs(chains[iteratorIdx])[iteratorPtr.place + 1..] + FromBucket(inserted, iteratorIdx + 1)
    }

    constructor ()
      ensures Valid() && fresh(table) && nodes == {}
      ensures inserted == [] && iteratorPtr == null
    {
      table := new Node?<V>[M](_ => null);
      iteratorPtr := null;
      iteratorIdx := 0;
      inserted := [];
      chains := seq(M, _ => []);
      nodes := {};
    }

    // Follows the chain of a bucket to its end and puts the node there.
    method LinkBehind(pos: nat, node: Node<V>)
      requires Linked() && pos < M && node !in nodes && node.next == null
      requires node.bucket == pos && node.place == |chains[pos]|
      modifies table, nodes
      ensures Chained(chains[pos] + [node], pos) && table[pos] == NodeAt(chains[pos] + [node], 0)
      ensures forall b :: 0 <= b < M && b != pos ==> table[b] == old(table[b])
      ensures forall n :: n in nodes && n.bucket != pos ==> n.next == old(n.next)
    {
      assert Holds(pos);
      ghost var chain := chains[pos];
      if table[pos] == null {
        table[pos] := node;
      } else {
        var last: Node<V> := table[pos];
        ghost var i := 0;
        while last.next != null
          invariant 0 <= i < |chain| && last == chain[i]
          decreases |chain| - i
        {
          last := last.next;
          i := i + 1;
        }
        last.next := node;
      }
    }

    method Insert(key: Key, value: V)
      requires Valid()
      modifies this`inserted, this`chains, this`nodes, table, nodes
      ensures Valid() && fresh(nodes - old(nodes))
      ensures inserted == old(inserted) + [(key, value)]
      ensures iteratorPtr == old(iteratorPtr) && iteratorIdx == old(iteratorIdx)
    {
      var pos := Hash(key);
      var node := new Node<V>(key, value, pos, |chains[pos]|);
      assert Holds(pos);
      LinkBehind(pos, node);
      forall b | 0 <= b < M && b != pos
        ensures Holds(b)
      {
        assert old(Holds(b));
      }
      Record(pos, node);
    }

    // Brings the record of what the map holds up to date after a node was linked.
    ghost method Record(pos: nat, node: Node<V>)
      requires table.Length == M == |chains| && pos < M && node !in nodes
      requires forall b, i :: 0 <= b < M && 0 <= i < |chains[b]| ==> chains[b][i] in nodes
      requires forall b :: 0 <= b < M && b != pos ==> Holds(b)
      requires Pairs(chains[pos]) == InBucket(inserted, pos) && Bucket(node.key) == pos
      requires Chained(chains[pos] + [node], pos) && table[pos] == NodeAt(chains[pos] + [node], 0)
      modifies this`inserted, this`chains, this`nodes
      ensures Linked()
      ensures inserted == old(inserted) + [(node.key, node.value)] && nodes == old(nodes) + {node}
      ensures chains == old(chains)[pos := old(chains)[pos] + [node]]
    {
      ghost var longer, pair := chains[pos] + [node], (node.key, node.value);
      assert ChainHolds(table[pos], longer, inserted + [pair], pos) by {
        OneMoreInBucket(inserted, pair, pos);
        assert longer[..|chains[pos]|] == chains[pos];
      }
      forall b | 0 <= b < M && b != pos
        ensures ChainHolds(table[b], chains[b], inserted + [pair], b)
      {
        assert Holds(b);
        OneMoreInBucket(inserted, pair, b);
      }
      chains := chains[pos := longer];
      nodes := nodes + {node};
      inserted := inserted + [pair];
    }

    method Get(key: Key) returns (value: Option<V>)
      requires Valid()
      ensures value == First(inserted, key)
    {
      var pos := Hash(key);
      assert Holds(pos);
      ghost var chain := chains[pos];
      ghost var pairs := Pairs(chain);
      FirstInBucket(inserted, key);
      var node := table[pos];
      ghost var i := 0;
      while node != null
        invariant 0 <= i <= |chain|
        invariant node == NodeAt(chain, i)
        invariant First(pairs[..i], key) == None
        decreases |chain| - i
      {
        PairAt(chain, i);
        assert pairs[..i + 1][..i] == pairs[..i];
        if node.key == key {
          FirstStays(pairs[..i + 1], pairs[i + 1..], key);
          assert pairs[..i + 1] + pairs[i + 1..] == pairs;
          return Some(node.value);
        }
        node := node.next;
        i := i + 1;
      }
      assert pairs[..i] == pairs;
      return None;
    }

    method ResetIterator()
      requires Valid()
      modifies this`iteratorPtr, this`iteratorIdx
      ensures Valid() && iteratorPtr == null
    {
      iteratorPtr := null;
      iteratorIdx := 0;
    }

    // At the start of a chain the iterator stands before its other nodes.
    lemma BucketStarts()
      requires Linked() && iteratorIdx < M && iteratorPtr != null && iteratorPtr == table[iteratorIdx]
      ensures OnNode() && FromBucket(inserted, iteratorIdx) == [(iteratorPtr.key, iteratorPtr.value)] + Rest()
    {
      assert Holds(iteratorIdx);
      var chain := chains[iteratorIdx];
      assert chain[0].place == 0;
      BucketOpens(inserted, chain, iteratorIdx);
    }

    // The loop that looks for the next bucket in use.
    method FindBucket()
      requires Linked() && iteratorIdx <= M
      modifies this`iteratorIdx
      ensures Linked() && old(iteratorIdx) <= iteratorIdx <= M
      ensures iteratorIdx < M ==> table[iteratorIdx] != null
      ensures FromBucket(inserted, iteratorIdx) == FromBucket(inserted, old(iteratorIdx))
    {
      while iteratorIdx < M && table[iteratorIdx] == null
        invariant old(iteratorIdx) <= iteratorIdx <= M
        invariant FromBucket(inserted, iteratorIdx) == FromBucket(inserted, old(iteratorIdx))
        decreases M - iteratorIdx
      {
        assert Holds(iteratorIdx);
        BucketOpens(inserted, chains[iteratorIdx], iteratorIdx);
        iteratorIdx := iteratorIdx + 1;
      }
    }

    method NextBucket() returns (pair: Option<Pair<V>>)
      requires Linked() && iteratorIdx <= M
      modifies this`iteratorPtr, this`iteratorIdx
      ensures Valid()
      ensures var ahead := FromBucket(inserted, old(iteratorIdx));
        if pair.None? then ahead == [] && iteratorPtr == null
        else ahead == [pair.value] + Rest() && iteratorPtr != null
    {
      FindBucket();
      if iteratorIdx < M {
        iteratorPtr := table[iteratorIdx];
        BucketStarts();
        return Some((iteratorPtr.key, iteratorPtr.value));
      }
      iteratorPtr := null;
      iteratorIdx := 0;
      return None;
    }

    // At the end of a chain only the buckets behind it are left.
    lemma ChainEnds()
      requires Valid() && iteratorPtr != null && iteratorPtr.next == null
      ensures Rest() == FromBucket(inserted, iteratorIdx + 1)
    {
      assert Holds(iteratorIdx);
      var chain, i := chains[iteratorIdx], iteratorPtr.place;
      LastInChain(chain, iteratorIdx, i);
      NothingLeft(Pairs(chain), i + 1, FromBucket(inserted, iteratorIdx + 1));
    }

    method NextInChain() returns (pair: Pair<V>)
      requires Valid() && iteratorPtr != null && iteratorPtr.next != null
      modifies this`iteratorPtr
      ensures Valid() && iteratorPtr != null
      ensures old(Rest()) == [pair] + Rest()
    {
      ghost var chain, i := chains[iteratorIdx], iteratorPtr.place;
      assert Holds(iteratorIdx);
      ChainOpens(chain, i + 1, FromBucket(inserted, iteratorIdx + 1));
      iteratorPtr := iteratorPtr.next;
      pair := (iteratorPtr.key, iteratorPtr.value);
      assert iteratorPtr == chain[i + 1] && iteratorPtr.place == i + 1;
    }

    // Gives the next pair; behind the last one nothing, and then starts again.
    method Next() returns (pair: Option<Pair<V>>)
      requires Valid()
      modifies this`iteratorPtr, this`iteratorIdx
      ensures Valid()
      ensures pair.None? ==> old(Rest()) == [] && iteratorPtr == null
      ensures pair.Some? ==> old(Rest()) == [pair.value] + Rest() && iteratorPtr != null
    {
      if iteratorPtr != null {
        if iteratorPtr.next != null {
          var inChain := NextInChain();
          return Some(inChain);
        }
        ChainEnds();
        iteratorIdx := iteratorIdx + 1;
        if iteratorIdx >= M {
          iteratorPtr := null;
          iteratorIdx := 0;
          return None;
        }
      }
      pair := NextBucket();
    }
  }

  lemma ChainOpens<V>(chain: seq<Node<V>>, i: nat, behind: seq<Pair<V>>)
    requires i < |chain|
    ensures Pairs(chain)[i..] + behind
      == [(chain[i].key, chain[i].value)] + (Pairs(chain)[i + 1..] + behind)
  {
    PairAt(chain, i);
    TailSplits(Pairs(chain), i);
    Associate([(chain[i].key, chain[i].value)], Pairs(chain)[i + 1..], behind);
  }

  // The first pair from a bucket on is the first of its chain, if it has one.
  lemma BucketOpens<V>(inserted: seq<Pair<V>>, chain: seq<Node<V>>, b: nat)
    requires b < M && Pairs(chain) == InBucket(inserted, b)
    ensures chain == [] ==> FromBucket(inserted, b) == FromBucket(inserted, b + 1)
    ensures chain != [] ==>
      FromBucket(inserted, b) == [(chain[0].key, chain[0].value)] + (Pairs(chain)[1..] + FromBucket(inserted, b + 1))
  {
    if chain == [] {
      assert [] + FromBucket(inserted, b + 1) == FromBucket(inserted, b + 1);
    } else {
      ChainOpens(chain, 0, FromBucket(inserted, b + 1));
      assert Pairs(chain)[0..] == Pairs(chain);
    }
  }

  lemma LastInChain<V>(chain: seq<Node<V>>, b: nat, i: nat)
    requires Chained(chain, b) && i < |chain| && chain[i].next == null
    ensures i + 1 == |chain|
  {
  }

  lemma NothingLeft<T>(s: seq<T>, i: nat, behind: seq<T>)
    requires i == |s|
    ensures s[i..] + behind == behind
  {
  }

  lemma TailSplits<T>(s: seq<T>, i: nat)
    requires i < |s|
    ensures s[i..] == [s[i]] + s[i + 1..]
  {
  }

  lemma {:induction false} FirstStays<V>(pairs: seq<Pair<V>>, more: seq<Pair<V>>, key: Key)
    requires First(pairs, key).Some?
    ensures First(pairs + more, key) == First(pairs, key)
    decreases |more|
  {
    if more == [] {
      assert pairs + more == pairs;
    } else {
      var last := |more| - 1;
      FirstStays(pairs, more[..last], key);
      assert (pairs + more)[..|pairs| + last] == pairs + more[..last];
    }
  }

  // The bucket of a key holds all pairs with that key, in the order of insertion.
  lemma {:induction false} FirstInBucket<V>(inserted: seq<Pair<V>>, key: Key)
    ensures First(InBucket(inserted, Bucket(key)), key) == First(inserted, key)
    decreases |inserted|
  {
    if inserted != [] {
      var last := |inserted| - 1;
      FirstInBucket(inserted[..last], key);
      var before := InBucket(inserted[..last], Bucket(key));
      if Bucket(inserted[last].0) == Bucket(key) {
        assert (before + [inserted[last]])[..|before|] == before;
      } else {
        assert before + [] == before;
      }
    }
  }

  lemma {:induction false} OneMorePair<V>(inserted: seq<Pair<V>>, pair: Pair<V>, b: nat)
    ensures multiset(FromBucket(inserted + [pair], b))
      == multiset(FromBucket(inserted, b)) + if b <= Bucket(pair.0) < M then multiset{pair} else multiset{}
    decreases M - b
  {
    assert (inserted + [pair])[..|inserted|] == inserted;
    if b < M {
      OneMorePair(inserted, pair, b + 1);
      assert InBucket(inserted, b) + [] == InBucket(inserted, b);
    }
  }

  // From the first bucket on, every inserted pair is held once.
  lemma {:induction false} EveryPairOnce<V>(inserted: seq<Pair<V>>, start: nat)
    requires start == 0
    ensures multiset(FromBucket(inserted, start)) == multiset(inserted)
    decreases |inserted|
  {
    if inserted == [] {
      NothingInserted<V>(start);
    } else {
      var last := |inserted| - 1;
      var before, pair := inserted[..last], inserted[last];
      assert inserted == before + [pair];
      EveryPairOnce(before, start);
      OneMorePair(before, pair, start);
    }
  }

  lemma {:induction false} NothingInserted<V>(b: nat)
    ensures FromBucket<V>([], b) == []
    decreases M - b
  {
    if b < M {
      NothingInserted<V>(b + 1);
    }
  }

  lemma {:induction false} OneBucketOnly<V>(inserted: seq<Pair<V>>, b: nat)
    ensures forall k :: 0 <= k < |InBucket(inserted, b)| ==> Bucket(InBucket(inserted, b)[k].0) == b
  {
    if inserted != [] {
      OneBucketOnly(inserted[..|inserted| - 1], b);
    }
  }

  // The pairs stand in the order of their buckets, none of which is before `b`.
  ghost predicate InOrder<V>(pairs: seq<Pair<V>>, b: nat) {
    && (forall k :: 0 <= k < |pairs| ==> b <= Bucket(pairs[k].0) < M)
    && (forall k, l :: 0 <= k < l < |pairs| ==> Bucket(pairs[k].0) <= Bucket(pairs[l].0))
  }

  lemma OrderJoins<V>(here: seq<Pair<V>>, behind: seq<Pair<V>>, b: nat)
    requires forall k :: 0 <= k < |here| ==> Bucket(here[k].0) == b < M
    requires InOrder(behind, b + 1)
    ensures InOrder(here + behind, b)
  {
    var pairs := here + behind;
    forall k | 0 <= k < |pairs|
      ensures b <= Bucket(pairs[k].0) < M && (k < |here| ==> Bucket(pairs[k].0) == b)
    {
      assert pairs[k] == if k < |here| then here[k] else behind[k - |here|];
    }
    forall k, l | 0 <= k < l < |pairs|
      ensures Bucket(pairs[k].0) <= Bucket(pairs[l].0)
    {
      if k >= |here| {
        assert pairs[k] == behind[k - |here|] && pairs[l] == behind[l - |here|];
      }
    }
  }

  // The buckets come in their order.
  lemma {:induction false} BucketsInOrder<V>(inserted: seq<Pair<V>>, b: nat)
    ensures InOrder(FromBucket(inserted, b), b)
    decreases M - b
  {
    if b < M {
      OneBucketOnly(inserted, b);
      BucketsInOrder(inserted, b + 1);
      OrderJoins(InBucket(inserted, b), FromBucket(inserted, b + 1), b);
    }
  }

  // From a reset iterator, Next gives every inserted pair exactly once, duplicates of a
  // key included, and then nothing.
  method Enumerate<V>(table: Map<V>) returns (pairs: seq<Pair<V>>)
    requires table.Valid()
    modifies table`iteratorPtr, table`iteratorIdx
    ensures table.Valid() && table.iteratorPtr == null
    ensures multiset(pairs) == multiset(table.inserted)
    ensures table.iteratorIdx == 0 && pairs == FromBucket(table.inserted, table.iteratorIdx)
  {
    table.ResetIterator();
    pairs := TakeAll(table);
    EveryPairOnce(table.inserted, table.iteratorIdx);
  }

  method TakeAll<V>(table: Map<V>) returns (pairs: seq<Pair<V>>)
    requires table.Valid()
    modifies table`iteratorPtr, table`iteratorIdx
    ensures table.Valid() && table.iteratorPtr == null
    ensures pairs == old(table.Rest())
  {
    ghost var all := table.Rest();
    pairs := [];
    var pair := table.Next();
    ghost var rest := if pair.Some? then table.Rest() else [];
    while pair.Some?
      invariant table.Valid()
      invariant pair.None? ==> table.iteratorPtr == null
      invariant pair.Some? ==> rest == table.Rest()
      invariant all == pairs + Given(pair) + rest
      invariant pair.None? ==> rest == []
      decreases |rest|, pair.Some?
    {
      Associate(pairs, Given(pair), rest);
      Associate(pairs, Given(pair), []);
      pairs := pairs + Given(pair);
      pair := table.Next();
      Associate(pairs, Given(pair), if pair.Some? then table.Rest() else []);
      rest := if pair.Some? then table.Rest() else [];
    }
  }

  function Given<V>(pair: Option<Pair<V>>): seq<Pair<V>> {
    if pair.None? then [] else [pair.value]
  }
}
