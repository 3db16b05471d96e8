/** The hash index of the map as values: which node handles each bucket must hold, and the
    grow/shrink policy that decides how many buckets there are. */
module BucketIndex {
  import opened Sequences

  /** The bucket a key is routed to: `hash(key) % capacity`. The hash is unsigned, so
      Dafny's `%` agrees with the source's. */
  function Slot<K>(hash: K -> nat, key: K, capacity: nat): (j: nat)
    requires capacity > 0
    ensures j < capacity
  {
    hash(key) % capacity
  }

  /** What bucket `j` holds when the node handles `hs` (in entry-list order) carry the keys
      `ks` (`hs[i]` holds `ks[i]`): the handles whose key is routed to `j`, in list order.
      Rebuilding the index by a front-to-back scan produces exactly this. */
  function Bucket<K>(hs: seq<nat>, ks: seq<K>, hash: K -> nat, capacity: nat, j: nat): (b: seq<nat>)
    requires |hs| == |ks| && capacity > 0
    ensures forall h :: h in b ==> h in hs
  {
    if hs == [] then []
    else
      (if Slot(hash, ks[0], capacity) == j then [hs[0]] else [])
      + Bucket(hs[1..], ks[1..], hash, capacity, j)
  }

  /** Every bucket of a freshly allocated index of `capacity` buckets matches `hs`/`ks`. */
  ghost predicate IndexMatches<K>(buckets: seq<seq<nat>>, hs: seq<nat>, ks: seq<K>, hash: K -> nat, capacity: nat)
    requires |hs| == |ks| && capacity > 0
  {
    |buckets| == capacity &&
    forall j :: 0 <= j < capacity ==> buckets[j] == Bucket(hs, ks, hash, capacity, j)
  }

  /** All-empty buckets index the empty list. */
  lemma IndexEmpty<K>(buckets: seq<seq<nat>>, hash: K -> nat, capacity: nat)
    requires capacity > 0 && |buckets| == capacity && forall j :: 0 <= j < capacity ==> buckets[j] == []
    ensures IndexMatches(buckets, [], [], hash, capacity)
  {
  }

  /** Appending the node `h` with key `k` to the list and to the end of its bucket keeps the
      index matching. */
  lemma IndexAppend<K>(buckets: seq<seq<nat>>, hs: seq<nat>, ks: seq<K>, h: nat, k: K,
                       hash: K -> nat, capacity: nat)
    requires |hs| == |ks| && capacity > 0 && IndexMatches(buckets, hs, ks, hash, capacity)
    ensures var idx := Slot(hash, k, capacity);
      IndexMatches(buckets[idx := buckets[idx] + [h]], hs + [h], ks + [k], hash, capacity)
  {
    forall j | 0 <= j < capacity
      ensures Bucket(hs + [h], ks + [k], hash, capacity, j)
           == Bucket(hs, ks, hash, capacity, j) + (if Slot(hash, k, capacity) == j then [h] else [])
    {
      BucketAppend(hs, ks, h, k, hash, capacity, j);
    }
  }

  /** Erasing the `k`-th node from the list, and from its bucket the first reference to it,
      keeps the index matching. */
  lemma IndexErase<K>(buckets: seq<seq<nat>>, hs: seq<nat>, ks: seq<K>, k: nat,
                      hash: K -> nat, capacity: nat)
    requires |hs| == |ks| && capacity > 0 && IndexMatches(buckets, hs, ks, hash, capacity)
    requires Distinct(hs) && k < |hs|
    ensures var idx := Slot(hash, ks[k], capacity);
      IndexMatches(buckets[idx := RemoveFirst(buckets[idx], hs[k])], Without(hs, k), Without(ks, k), hash, capacity)
  {
    var idx := Slot(hash, ks[k], capacity);
    forall j | 0 <= j < capacity
      ensures Bucket(Without(hs, k), Without(ks, k), hash, capacity, j)
           == buckets[idx := RemoveFirst(buckets[idx], hs[k])][j]
    {
      BucketRemove(hs, ks, hash, capacity, j, k);
      if j != idx {
        BucketMember(hs, ks, hash, capacity, j, k);
      }
    }
  }

  /** Appending a node at the tail of the entry list appends it to its own bucket only. */
  lemma {:induction false} BucketAppend<K>(hs: seq<nat>, ks: seq<K>, h: nat, k: K,
                                           hash: K -> nat, capacity: nat, j: nat)
    requires |hs| == |ks| && capacity > 0
    ensures Bucket(hs + [h], ks + [k], hash, capacity, j)
         == Bucket(hs, ks, hash, capacity, j) + (if Slot(hash, k, capacity) == j then [h] else [])
  {
    if hs != [] {
      assert (hs + [h])[1..] == hs[1..] + [h];
      assert (ks + [k])[1..] == ks[1..] + [k];
      BucketAppend(hs[1..], ks[1..], h, k, hash, capacity, j);
    }
  }

  /** A node is referenced by bucket `j` exactly when its key is routed to `j`. */
  lemma {:induction false} BucketMember<K>(hs: seq<nat>, ks: seq<K>, hash: K -> nat, capacity: nat,
                                           j: nat, i: nat)
    requires |hs| == |ks| && capacity > 0 && Distinct(hs) && i < |hs|
    ensures hs[i] in Bucket(hs, ks, hash, capacity, j) <==> Slot(hash, ks[i], capacity) == j
  {
    DistinctTail(hs);
    if i == 0 {
      assert hs[0] !in Bucket(hs[1..], ks[1..], hash, capacity, j);
    } else {
      assert hs[1..][i - 1] == hs[i];
      BucketMember(hs[1..], ks[1..], hash, capacity, j, i - 1);
    }
  }

  /** Every handle in bucket `j` is some node of the list whose key is routed to `j`. */
  lemma {:induction false} BucketSource<K>(hs: seq<nat>, ks: seq<K>, hash: K -> nat, capacity: nat,
                                           j: nat, h: nat)
    requires |hs| == |ks| && capacity > 0 && h in Bucket(hs, ks, hash, capacity, j)
    ensures exists i :: 0 <= i < |hs| && hs[i] == h && Slot(hash, ks[i], capacity) == j
  {
    if Slot(hash, ks[0], capacity) == j && hs[0] == h {
    } else {
      BucketSource(hs[1..], ks[1..], hash, capacity, j, h);
      var i :| 0 <= i < |hs| - 1 && hs[1..][i] == h && Slot(hash, ks[1..][i], capacity) == j;
      assert hs[i + 1] == h && ks[i + 1] == ks[1..][i];
    }
  }

  /** A bucket never references a node twice. */
  lemma {:induction false} BucketDistinct<K>(hs: seq<nat>, ks: seq<K>, hash: K -> nat, capacity: nat, j: nat)
    requires |hs| == |ks| && capacity > 0 && Distinct(hs)
    ensures Distinct(Bucket(hs, ks, hash, capacity, j))
  {
    if hs != [] {
      DistinctTail(hs);
      BucketDistinct(hs[1..], ks[1..], hash, capacity, j);
    }
  }

  /** Invariant 1 and 2 of the index in one statement: over all buckets, a live node is
      referenced exactly once, and that once is in the bucket its key is routed to. */
  lemma ReferencedOnce<K>(hs: seq<nat>, ks: seq<K>, hash: K -> nat, capacity: nat, j: nat, i: nat)
    requires |hs| == |ks| && capacity > 0 && Distinct(hs) && i < |hs|
    ensures multiset(Bucket(hs, ks, hash, capacity, j))[hs[i]]
         == if j == Slot(hash, ks[i], capacity) then 1 else 0
  {
    BucketDistinct(hs, ks, hash, capacity, j);
    BucketMember(hs, ks, hash, capacity, j, i);
    DistinctOccursOnce(Bucket(hs, ks, hash, capacity, j), hs[i]);
  }

  /** Erasing the node at list position `k` from the list leaves every bucket as the
      bucket-side scan leaves it: with the first reference to that node unlinked. */
  lemma {:induction false} BucketRemove<K>(hs: seq<nat>, ks: seq<K>, hash: K -> nat, capacity: nat,
                                           j: nat, k: nat)
    requires |hs| == |ks| && capacity > 0 && Distinct(hs) && k < |hs|
    ensures Bucket(Without(hs, k), Without(ks, k), hash, capacity, j)
         == RemoveFirst(Bucket(hs, ks, hash, capacity, j), hs[k])
  {
    DistinctTail(hs);
    var head := if Slot(hash, ks[0], capacity) == j then [hs[0]] else [];
    var rest := Bucket(hs[1..], ks[1..], hash, capacity, j);
    assert Bucket(hs, ks, hash, capacity, j) == head + rest;
    if k == 0 {
      assert Without(hs, 0) == hs[1..] && Without(ks, 0) == ks[1..];
      assert hs[0] !in rest;
    } else {
      var wh, wk := Without(hs, k), Without(ks, k);
      assert wh == [hs[0]] + Without(hs[1..], k - 1);
      assert wk == [ks[0]] + Without(ks[1..], k - 1);
      assert hs[1..][k - 1] == hs[k] && hs[0] != hs[k];
      BucketRemove(hs[1..], ks[1..], hash, capacity, j, k - 1);
      assert wh[1..] == Without(hs[1..], k - 1) && wk[1..] == Without(ks[1..], k - 1);
      assert Bucket(wh, wk, hash, capacity, j) == head + RemoveFirst(rest, hs[k]);
      RemoveFirstPastHead(head, rest, hs[k]);
    }
  }

  lemma RemoveFirstPastHead(head: seq<nat>, rest: seq<nat>, x: nat)
    requires x !in head && |head| <= 1
    ensures RemoveFirst(head + rest, x) == head + RemoveFirst(rest, x)
  {
    if head != [] {
      var s := head + rest;
      assert s[0] == head[0] && s[0] != x && s[1..] == rest;
      assert RemoveFirst(s, x) == [s[0]] + RemoveFirst(s[1..], x);
      assert head == [s[0]];
    } else {
      assert head + rest == rest;
    }
  }

  lemma DistinctTail(s: seq<nat>)
    requires Distinct(s) && s != []
    ensures Distinct(s[1..]) && s[0] !in s[1..]
  {
    assert forall i :: 0 <= i < |s| - 1 ==> s[1..][i] == s[i + 1];
  }

  // Resize policy.

  /** Capacity after an insertion has raised the entry count to `len`: doubled once the
      count reaches `loadFactor * capacity`. */
  function Grown(len: nat, capacity: nat, loadFactor: nat): (c: nat)
    ensures c == capacity || c == 2 * capacity
    ensures capacity >= 1 ==> c >= 1
  {
    if len >= loadFactor * capacity then 2 * capacity else capacity
  }

  /** Capacity after an erasure has lowered the entry count to `len`: halved once the count
      falls below half of `capacity * loadFactor` (integer division), except that a
      capacity whose half is 0 stays as it is. */
  function Shrunk(len: nat, capacity: nat, loadFactor: nat): (c: nat)
    ensures c == capacity || c == capacity / 2
    ensures capacity >= 1 ==> c >= 1
  {
    if len < capacity * loadFactor / 2 && capacity / 2 != 0 then capacity / 2 else capacity
  }

  function Pow2(n: nat): (p: nat)
    ensures p >= 1
  {
    if n == 0 then 1 else 2 * Pow2(n - 1)
  }

  /** Halving an even bucket count halves the growth threshold exactly. */
  lemma HalfThreshold(c: nat, loadFactor: nat)
    ensures (2 * c) * loadFactor / 2 == c * loadFactor
  {
    assert (2 * c) * loadFactor == 2 * (c * loadFactor);
  }

  /** An insertion that finds the count below the growth threshold leaves it below the
      threshold of the capacity it ends with. */
  lemma GrowthKeepsLoadBelow(len: nat, capacity: nat, loadFactor: nat)
    requires len < capacity * loadFactor
    ensures len + 1 < Grown(len + 1, capacity, loadFactor) * loadFactor
  {
    if len + 1 >= loadFactor * capacity {
      assert (2 * capacity) * loadFactor == 2 * (capacity * loadFactor);
    }
  }

  /** An erasure that leaves `len` entries below the growth threshold of a power-of-two
      capacity leaves them below the threshold of the capacity it ends with. */
  lemma ShrinkKeepsLoadBelow(len: nat, capacity: nat, log: nat, loadFactor: nat)
    requires capacity == Pow2(log) && len < capacity * loadFactor
    ensures len < Shrunk(len, capacity, loadFactor) * loadFactor
  {
    if len < capacity * loadFactor / 2 && capacity / 2 != 0 {
      assert log >= 1;
      HalfThreshold(Pow2(log - 1), loadFactor);
    }
  }

  /** Capacity after `n` insertions of new keys into an empty map that started with
      `capacity` buckets. */
  function CapacityAfterInserts(n: nat, capacity: nat, loadFactor: nat): nat
  {
    if n == 0 then capacity
    else Grown(n, CapacityAfterInserts(n - 1, capacity, loadFactor), loadFactor)
  }

  /** Fewer than `capacity * loadFactor` insertions into an empty map never resize it. */
  lemma {:induction false} NoGrowthBelowLoad(n: nat, capacity: nat, loadFactor: nat)
    requires n < capacity * loadFactor
    ensures CapacityAfterInserts(n, capacity, loadFactor) == capacity
  {
    if n > 0 {
      NoGrowthBelowLoad(n - 1, capacity, loadFactor);
      assert !(n >= loadFactor * capacity);
    }
  }

  /** The insertion that brings an empty map to exactly `capacity * loadFactor` entries is
      the one that doubles it, once. */
  lemma FirstGrowth(capacity: nat, loadFactor: nat)
    requires capacity >= 1 && loadFactor >= 1
    ensures CapacityAfterInserts(capacity * loadFactor, capacity, loadFactor) == 2 * capacity
  {
    var n := capacity * loadFactor;
    assert n >= 1 by { assert capacity * loadFactor >= 1 * 1; }
    NoGrowthBelowLoad(n - 1, capacity, loadFactor);
  }
}
