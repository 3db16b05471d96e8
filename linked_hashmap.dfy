/** `sjtu::linked_hashmap`: a hash map whose entries also sit in one doubly linked list in
    insertion order. The list (`elemTable`) owns the entries; the index (`hashList`) is an
    array of `capacity` buckets, each holding pointers to the list nodes whose key hashes to
    it, in list order. Iterators walk the list. */
module LinkedHashMaps {
  import opened Sequences
  import opened BucketIndex
  import opened Entries
  import opened LinkedLists

  /** The two exception types the map throws. */
  datatype Error = IndexOutOfBound | InvalidIterator

  datatype Result<T> = Ok(value: T) | Err(error: Error)

  /** The outcome of an operation that returns nothing but may throw. */
  datatype Outcome = Pass | Fail(error: Error)

  /** An `iterator` (or `const_iterator`): the list node it points at and the head sentinel
      of the list that issued it. */
  datatype Iterator = Iterator(node: nat, identity: ListTag)

  /** What a postfix step leaves in the iterator variable, and what the expression returns. */
  datatype Stepped = Stepped(moved: Iterator, returned: Iterator)

  /** The bucket count of a new map, `1 << 15`. */
  const InitialCapacity: nat := 32768
  /** The entries per bucket that trigger growth, `1 << 5`. */
  const DefaultLoadFactor: nat := 32

  /** The initial bucket count is `2^15`. */
  lemma InitialCapacityIsPow2()
    ensures Pow2(15) == InitialCapacity
  {
    assert Pow2(5) == 32;
    assert Pow2(10) == 32 * 32;
  }

  class LinkedHashMap<K(==), V> {
    const getHash: K -> nat
    /** The value `T()` that `operator[]` stores under a new key. */
    const defaultValue: V
    const elemTable: LinkedList<Entry<K, V>>
    const loadFactor: nat
    var hashList: array<seq<nat>>
    var capacity: nat
    var totLength: nat
    // capacity == 2^logCapacity: it starts at 2^15 and is only ever doubled or halved.
    ghost var logCapacity: nat

    /** The entries in list (insertion) order. */
    ghost function Contents(): seq<Entry<K, V>>
      reads elemTable
    {
      elemTable.Contents
    }

    ghost function Keys(): seq<K>
      reads elemTable
    {
      KeysOf(elemTable.Contents)
    }

    /** The entry list is well formed, keys are unique, and the bucket count is a power of
        two. */
    ghost predicate Listed()
      reads this, elemTable
    {
      && elemTable.Valid()
      && |elemTable.order| == |elemTable.Contents|
      && Distinct(Keys())
      && loadFactor >= 1
      && capacity == Pow2(logCapacity)
    }

    /** Additionally the index matches the list: bucket `j` holds, in list order, exactly the
        nodes whose key hashes to `j`, so every entry is referenced once, from its own bucket. */
    ghost predicate Indexed()
      reads this, elemTable, hashList
    {
      && Listed()
      && hashList.Length == capacity
      && IndexMatches(hashList[..], elemTable.order, Keys(), getHash, capacity)
    }

    /** The map invariant: the index matches, `totLength` counts the entries, and the load
        stays below the growth threshold. */
    ghost predicate Valid()
      reads this, elemTable, hashList
    {
      && Indexed()
      && totLength == |Contents()|
      && totLength < capacity * loadFactor
    }

    // Iterator positions.

    /** `it` was issued by this map and points at a live entry or at the end. */
    ghost predicate Issued(it: Iterator)
      reads elemTable
    {
      it.identity == elemTable.tag && (it.node == Tail || it.node in elemTable.order)
    }

    /** The index of the entry `it` points at; the entry count for the end. */
    ghost function Position(it: Iterator): nat
      reads elemTable
    {
      IndexOf(elemTable.order, it.node)
    }

    /** The iterator to the `i`-th entry, or the end for `i == |Contents()|`. */
    ghost function IterAt(i: nat): Iterator
      reads elemTable
      requires i <= |elemTable.order|
    {
      Iterator(elemTable.Walk()[i + 1], elemTable.tag)
    }

    /** Every issued iterator is the iterator to its position. */
    lemma IterAtPosition(it: Iterator)
      requires elemTable.Valid() && Issued(it)
      ensures Position(it) <= |elemTable.order| && IterAt(Position(it)) == it
    {
      if it.node == Tail {
        assert Tail !in elemTable.order;
      }
    }

    /** Distinct positions give distinct iterators, and each is issued at its position. */
    lemma IterAtInjective(i: nat, j: nat)
      requires elemTable.Valid() && i <= |elemTable.order| && j <= |elemTable.order|
      ensures Issued(IterAt(i)) && Position(IterAt(i)) == i
      ensures IterAt(i) == IterAt(j) <==> i == j
    {
      ChainDistinct(elemTable.nodes, elemTable.order, elemTable.Contents);
      if i < |elemTable.order| {
        assert IterAt(i).node == elemTable.order[i];
        IndexOfDistinct(elemTable.order, i);
      } else {
        assert Tail !in elemTable.order;
      }
    }

    /** The node `h` of the entry list holds the entry at its position. */
    lemma Holds(h: nat)
      requires elemTable.Valid() && h in elemTable.order
      ensures IndexOf(elemTable.order, h) < |elemTable.Contents|
      ensures h < |elemTable.nodes| && elemTable.nodes[h].val == Some(elemTable.Contents[IndexOf(elemTable.order, h)])
    {
    }

    /** The index references every live entry exactly once over all buckets: once from the
        bucket its key hashes to, never from another. */
    lemma EntryIndexedOnce(i: nat, j: nat)
      requires Valid() && i < |Contents()| && j < capacity
      ensures multiset(hashList[j])[elemTable.order[i]] == if j == Slot(getHash, Keys()[i], capacity) then 1 else 0
    {
      assert hashList[j] == hashList[..][j];
      ReferencedOnce(elemTable.order, Keys(), getHash, capacity, j, i);
    }

    /** Everything a bucket references is a live entry whose key hashes to that bucket. */
    lemma BucketHoldsOwnKeys(j: nat, h: nat)
      requires Valid() && j < capacity && h in hashList[j]
      ensures h in elemTable.order && Slot(getHash, Keys()[IndexOf(elemTable.order, h)], capacity) == j
    {
      assert hashList[j] == hashList[..][j];
      BucketSource(elemTable.order, Keys(), getHash, capacity, j, h);
      var i :| 0 <= i < |elemTable.order| && elemTable.order[i] == h && Slot(getHash, Keys()[i], capacity) == j;
      IndexOfDistinct(elemTable.order, i);
    }

    // Construction and the index.

    /** An empty map with `1 << 15` empty buckets and load factor `1 << 5`. */
    constructor (hash: K -> nat, dflt: V)
      ensures Valid() && Contents() == []
      ensures capacity == InitialCapacity && loadFactor == DefaultLoadFactor && getHash == hash
      ensures defaultValue == dflt
      ensures fresh(elemTable) && fresh(elemTable.tag) && fresh(hashList)
    {
      getHash := hash;
      defaultValue := dflt;
      loadFactor := 32;
      capacity := 32768;
      logCapacity := 15;
      totLength := 0;
      hashList := new seq<nat>[32768](_ => []);
      elemTable := new LinkedList();
      new;
      InitialCapacityIsPow2();
      IndexEmpty(hashList[..], getHash, capacity);
    }

    /** A deep copy: the entries cloned in the same order into a fresh list, and a fresh
        index built over them with the same bucket count. */
    constructor Copy(other: LinkedHashMap<K, V>)
      requires other.Valid()
      ensures Valid() && Contents() == other.Contents()
      ensures capacity == other.capacity && loadFactor == other.loadFactor && getHash == other.getHash
      ensures defaultValue == other.defaultValue
      ensures fresh(elemTable) && fresh(elemTable.tag) && fresh(hashList)
    {
      getHash := other.getHash;
      defaultValue := other.defaultValue;
      loadFactor := other.loadFactor;
      capacity := other.capacity;
      logCapacity := other.logCapacity;
      totLength := other.totLength;
      hashList := new seq<nat>[0];
      elemTable := new LinkedList.Copy(other.elemTable);
      new;
      BuildHashList();
    }

    /** Replaces the index by a fresh one of `capacity` buckets filled by one front-to-back
        pass over the entry list; the entries stay as they are. */
    method BuildHashList()
      requires Listed()
      modifies this
      ensures Indexed() && fresh(hashList)
      ensures capacity == old(capacity) && totLength == old(totLength) && logCapacity == old(logCapacity)
      ensures elemTable.order == old(elemTable.order) && Contents() == old(Contents())
    {
      var table := new seq<nat>[capacity](_ => []);
      elemTable.LinkAt(0);
      var cur := elemTable.nodes[Head].next.to;
      ghost var i := 0;
      while cur != Tail
        invariant 0 <= i <= |elemTable.order| && cur == elemTable.Walk()[i + 1]
        invariant table.Length == capacity && fresh(table)
        invariant IndexMatches(table[..], elemTable.order[..i], Keys()[..i], getHash, capacity)
        invariant unchanged(this)
        decreases |elemTable.order| - i
      {
        ScanStep(i, cur);
        var idx := getHash(elemTable.nodes[cur].val.value.key) % capacity;
        IndexAppend(table[..], elemTable.order[..i], Keys()[..i], cur, Keys()[i], getHash, capacity);
        table[idx] := table[idx] + [cur];
        cur := elemTable.nodes[cur].next.to;
        i := i + 1;
      }
      assert elemTable.order[..i] == elemTable.order && Keys()[..i] == Keys();
      hashList := table;
    }

    /** What one step of a front-to-back pass over the entry list sees at the `i`-th live
        node `cur`: its entry, the node after it, and the prefixes grown by one. */
    lemma ScanStep(i: nat, cur: nat)
      requires elemTable.Valid() && |elemTable.order| == |elemTable.Contents|
      requires i <= |elemTable.order| && cur == elemTable.Walk()[i + 1] && cur != Tail
      ensures i < |elemTable.order| && cur == elemTable.order[i] && cur < |elemTable.nodes|
      ensures elemTable.nodes[cur].val == Some(elemTable.Contents[i]) && Keys()[i] == elemTable.Contents[i].key
      ensures elemTable.nodes[cur].next == Ref(elemTable.Walk()[i + 2])
      ensures elemTable.order[..i + 1] == elemTable.order[..i] + [cur]
      ensures Keys()[..i + 1] == Keys()[..i] + [Keys()[i]]
    {
      elemTable.LinkAt(i + 1);
    }

    /** Doubles the bucket count and rebuilds the index. */
    method DoubleSize()
      requires Listed()
      modifies this
      ensures Indexed() && fresh(hashList)
      ensures capacity == 2 * old(capacity) && totLength == old(totLength)
    {
      capacity := capacity * 2;
      logCapacity := logCapacity + 1;
      BuildHashList();
    }

    /** Halves the bucket count and rebuilds the index, unless half of it would be 0. */
    method HalfSize()
      requires Indexed()
      modifies this
      ensures Indexed() && totLength == old(totLength) && (hashList == old(hashList) || fresh(hashList))
      ensures capacity == if old(capacity) / 2 == 0 then old(capacity) else old(capacity) / 2
    {
      if capacity / 2 == 0 {
        return;
      }
      capacity := capacity / 2;
      logCapacity := logCapacity - 1;
      BuildHashList();
    }

    // Lookup.

    /** `find`: scans the key's bucket for a node whose key equals `key`; the end iterator
        when there is none. */
    method Find(key: K) returns (it: Iterator)
      requires Valid()
      ensures Issued(it) && it == IterAt(IndexOf(Keys(), key))
      ensures it == End() <==> key !in Keys()
    {
      var idx := getHash(key) % capacity;
      var b := hashList[idx];
      BucketLive(idx);
      var i := 0;
      while i < |b|
        invariant 0 <= i <= |b|
        invariant forall p :: 0 <= p < i ==> KeyOf(b[p]) != key
      {
        var dataPos := b[i];
        Probe(key, dataPos);
        if elemTable.nodes[dataPos].val.value.key == key {
          return Iterator(dataPos, elemTable.tag);
        }
        i := i + 1;
      }
      Miss(key);
      it := End();
    }

    /** The key of the entry the live node `h` holds. */
    ghost function KeyOf(h: nat): K
      reads elemTable
      requires elemTable.Valid() && h in elemTable.order
    {
      Keys()[IndexOf(elemTable.order, h)]
    }

    /** Every node a bucket references is live. */
    lemma BucketLive(j: nat)
      requires Valid() && j < capacity
      ensures forall h :: h in hashList[j] ==> h in elemTable.order
    {
      assert hashList[j] == hashList[..][j];
    }

    /** What a bucket scan learns from the live node `h`: its key, and when that is `key`,
        that the iterator to `h` is the one to the entry holding `key`. */
    lemma Probe(key: K, h: nat)
      requires Valid() && h in elemTable.order
      ensures h < |elemTable.nodes| && elemTable.nodes[h].val.Some?
      ensures elemTable.nodes[h].val.value.key == KeyOf(h)
      ensures KeyOf(h) == key ==>
        && key in Keys()
        && Issued(Iterator(h, elemTable.tag))
        && Iterator(h, elemTable.tag) == IterAt(IndexOf(Keys(), key))
        && Iterator(h, elemTable.tag) != End()
    {
      var q := IndexOf(elemTable.order, h);
      if KeyOf(h) == key {
        LookupFindsEntry(elemTable.Contents, key, q);
        IterAtInjective(q, |elemTable.order|);
      }
    }

    /** A key that no node of its bucket carries is not in the map, and the end iterator is
        the one `find` owes for it. */
    lemma Miss(key: K)
      requires Valid()
      requires var b := hashList[Slot(getHash, key, capacity)];
        forall p :: 0 <= p < |b| ==> b[p] in elemTable.order && KeyOf(b[p]) != key
      ensures key !in Keys()
      ensures End() == IterAt(IndexOf(Keys(), key))
    {
      var idx := Slot(getHash, key, capacity);
      if key in Keys() {
        var q := IndexOf(Keys(), key);
        assert hashList[idx] == hashList[..][idx];
        BucketMember(elemTable.order, Keys(), getHash, capacity, idx, q);
        IndexOfDistinct(elemTable.order, q);
        assert false;
      }
      IterAtInjective(|elemTable.order|, |elemTable.order|);
    }

    /** `checkExistence`: the same bucket scan, answering only whether a match exists. */
    method CheckExistence(key: K) returns (r: bool)
      requires Valid()
      ensures r <==> key in Keys()
    {
      var idx := getHash(key) % capacity;
      var b := hashList[idx];
      BucketLive(idx);
      var i := 0;
      while i < |b|
        invariant 0 <= i <= |b|
        invariant forall p :: 0 <= p < i ==> KeyOf(b[p]) != key
      {
        var dataPos := b[i];
        Probe(key, dataPos);
        if elemTable.nodes[dataPos].val.value.key == key {
          return true;
        }
        i := i + 1;
      }
      Miss(key);
      return false;
    }

    /** `count`: 1 when the key is present, 0 otherwise. */
    method Count(key: K) returns (n: nat)
      requires Valid()
      ensures n == if key in Keys() then 1 else 0
    {
      var present := CheckExistence(key);
      n := if present then 1 else 0;
    }

    /** `at` and the const `operator[]`: the value stored under `key`, or `index_out_of_bound`
        when the key is absent. */
    method At(key: K) returns (r: Result<V>)
      requires Valid()
      ensures key in Keys() ==> r == Ok(Contents()[IndexOf(Keys(), key)].value)
      ensures key !in Keys() ==> r == Err(IndexOutOfBound)
    {
      var it := Find(key);
      if it == End() {
        return Err(IndexOutOfBound);
      }
      Holds(it.node);
      r := Ok(elemTable.nodes[it.node].val.value.value);
    }

    // Updates.

    /** Counts one more entry (growing the index when the count reaches the threshold) and
        appends `e` to the list and to its bucket; `e.key` is new. */
    method AppendEntry(e: Entry<K, V>) returns (h: nat)
      requires Valid() && e.key !in Keys()
      modifies this, elemTable, hashList
      ensures hashList == old(hashList) || fresh(hashList)
      ensures Valid()
      ensures Contents() == old(Contents()) + [e] && elemTable.order == old(elemTable.order) + [h]
      ensures capacity == Grown(old(totLength) + 1, old(capacity), loadFactor)
    {
      GrowthKeepsLoadBelow(totLength, capacity, loadFactor);
      totLength := totLength + 1;
      if totLength >= loadFactor * capacity {
        DoubleSize();
      }
      ghost var hs, ks := elemTable.order, Keys();
      var dataPos := elemTable.PushBack(e);
      var idx := getHash(e.key) % capacity;
      KeysOfAppend(old(Contents()), e);
      DistinctAppend(ks, e.key);
      IndexAppend(hashList[..], hs, ks, dataPos, e.key, getHash, capacity);
      hashList[idx] := hashList[idx] + [dataPos];
      h := dataPos;
    }

    /** `operator[]`: the node holding the value stored under `key`, after appending the entry
        `(key, T())` when the key is absent. */
    method Subscript(key: K) returns (ref: nat)
      requires Valid()
      modifies this, elemTable, hashList
      ensures hashList == old(hashList) || fresh(hashList)
      ensures Valid() && key in Keys()
      ensures ref == elemTable.order[IndexOf(Keys(), key)]
      ensures key in old(Keys()) ==>
        && Contents() == old(Contents()) && elemTable.order == old(elemTable.order)
        && capacity == old(capacity)
      ensures key !in old(Keys()) ==>
        && Contents() == old(Contents()) + [Entry(key, defaultValue)]
        && elemTable.order == old(elemTable.order) + [ref]
        && capacity == Grown(old(totLength) + 1, old(capacity), loadFactor)
    {
      var it := Find(key);
      if it != End() {
        ref := it.node;
        return;
      }
      ref := AppendEntry(Entry(key, defaultValue));
      KeysOfAppend(old(Contents()), Entry(key, defaultValue));
      LookupFindsEntry(Contents(), key, |Contents()| - 1);
    }

    /** Stores `v` through the reference `ref` that `operator[]` returned: only that entry's
        value changes. A write through the reference `at` returns is `Find` followed by
        `Assign(it.node, v)`. */
    method Assign(ref: nat, v: V)
      requires Valid() && ref in elemTable.order
      modifies elemTable
      ensures Valid() && elemTable.order == old(elemTable.order)
      ensures var i := IndexOf(old(elemTable.order), ref);
        Contents() == old(Contents())[i := Entry(old(Contents())[i].key, v)]
    {
      ghost var i := IndexOf(elemTable.order, ref);
      Holds(ref);
      elemTable.Store(ref, Entry(elemTable.nodes[ref].val.value.key, v));
      KeysOfSetValue(old(Contents()), i, v);
    }

    /** `insert`: leaves the map alone and points at the entry holding the key when it is
        present; appends `value` and points at it otherwise. */
    method Insert(value: Entry<K, V>) returns (it: Iterator, inserted: bool)
      requires Valid()
      modifies this, elemTable, hashList
      ensures hashList == old(hashList) || fresh(hashList)
      ensures Valid() && Issued(it)
      ensures inserted <==> value.key !in old(Keys())
      ensures !inserted ==>
        && Contents() == old(Contents()) && elemTable.order == old(elemTable.order)
        && capacity == old(capacity)
        && it == IterAt(IndexOf(Keys(), value.key))
      ensures inserted ==>
        && Contents() == old(Contents()) + [value]
        && elemTable.order == old(elemTable.order) + [it.node]
        && capacity == Grown(old(totLength) + 1, old(capacity), loadFactor)
        && it == IterAt(|old(Contents())|)
    {
      var pos := Find(value.key);
      if pos != End() {
        return pos, false;
      }
      var dataPos := AppendEntry(value);
      it := Iterator(dataPos, elemTable.tag);
      inserted := true;
      IterAtInjective(|old(Contents())|, |old(Contents())|);
    }

    /** `erase`: `index_out_of_bound` for the end iterator or one another map issued;
        otherwise counts one entry less (shrinking the index below half the threshold),
        unlinks the node from its bucket and from the list. */
    method Erase(pos: Iterator) returns (r: Outcome)
      requires Valid()
      requires pos.identity == elemTable.tag ==> Issued(pos)
      modifies this, elemTable, hashList
      ensures hashList == old(hashList) || fresh(hashList)
      ensures Valid()
      ensures pos == old(End()) || pos.identity != elemTable.tag ==>
        && r == Fail(IndexOutOfBound)
        && Contents() == old(Contents()) && elemTable.order == old(elemTable.order)
        && capacity == old(capacity)
      ensures pos != old(End()) && pos.identity == elemTable.tag ==>
        var k := IndexOf(old(elemTable.order), pos.node);
        && r == Pass
        && k < |old(Contents())|
        && Contents() == Without(old(Contents()), k)
        && elemTable.order == Without(old(elemTable.order), k)
        && old(Keys())[k] !in Keys()
        && capacity == Shrunk(old(totLength) - 1, old(capacity), loadFactor)
    {
      if pos == End() {
        return Fail(IndexOutOfBound);
      }
      if pos.identity != elemTable.tag {
        return Fail(IndexOutOfBound);
      }
      Holds(pos.node);
      ghost var k := IndexOf(elemTable.order, pos.node);
      CountErasure();
      var dataPos := pos.node;
      var data := elemTable.nodes[dataPos].val.value;
      var idx := getHash(data.key) % capacity;
      ghost var hs, ks := elemTable.order, Keys();
      IndexErase(hashList[..], hs, ks, k, getHash, capacity);
      DropFromBucket(idx, dataPos);
      elemTable.Erase(dataPos);
      KeysOfWithout(old(Contents()), k);
      DistinctWithout(ks, k);
      r := Pass;
    }

    /** The count update of `erase`: one entry less, and the index halved once the count
        falls below half the growth threshold. */
    method CountErasure()
      requires Valid() && totLength >= 1
      modifies this
      ensures Indexed() && totLength == old(totLength) - 1 && totLength < capacity * loadFactor
      ensures capacity == Shrunk(totLength, old(capacity), loadFactor)
      ensures hashList == old(hashList) || fresh(hashList)
    {
      totLength := totLength - 1;
      ShrinkKeepsLoadBelow(totLength, capacity, logCapacity, loadFactor);
      if totLength < capacity * loadFactor / 2 {
        HalfSize();
      }
    }

    /** The bucket scan of `erase`: unlinks the first reference to the node `h` from bucket
        `idx`, if there is one; the other buckets stay as they are. */
    method DropFromBucket(idx: nat, h: nat)
      requires idx < hashList.Length
      modifies hashList
      ensures hashList[..] == old(hashList[..])[idx := RemoveFirst(old(hashList[idx]), h)]
    {
      var b := hashList[idx];
      var i := 0;
      while i < |b| && b[i] != h
        invariant 0 <= i <= |b|
        invariant forall p :: 0 <= p < i ==> b[p] != h
      {
        i := i + 1;
      }
      if i < |b| {
        RemoveFirstAt(b, i);
        hashList[idx] := Without(b, i);
      }
    }

    /** `clear`: empties every bucket, then the list; the bucket count stays. */
    method Clear()
      requires Valid()
      modifies this, elemTable, hashList
      ensures Valid() && Contents() == []
      ensures capacity == old(capacity) && hashList == old(hashList)
      ensures forall j :: 0 <= j < hashList.Length ==> hashList[j] == []
    {
      for i := 0 to capacity
        invariant unchanged(this) && unchanged(elemTable)
        invariant forall j :: 0 <= j < i ==> hashList[j] == []
      {
        hashList[i] := [];
      }
      elemTable.Clear();
      totLength := 0;
    }

    // Size.

    function Size(): (n: nat)
      reads this, elemTable, hashList
      requires Valid()
      ensures n == |Contents()|
    {
      totLength
    }

    function Empty(): (r: bool)
      reads this, elemTable, hashList
      requires Valid()
      ensures r <==> Contents() == []
    {
      totLength == 0
    }

    // Iterators.

    /** `begin`: the iterator to the first entry (the end of an empty map). */
    function Begin(): (it: Iterator)
      reads elemTable
      requires elemTable.Valid()
      ensures Issued(it) && Position(it) == 0
    {
      elemTable.LinkAt(0);
      IterAtInjective(0, 0);
      Iterator(elemTable.nodes[Head].next.to, elemTable.tag)
    }

    /** `end`: the past-the-end iterator, at the tail sentinel. */
    function End(): (it: Iterator)
      reads elemTable
      requires elemTable.Valid()
      ensures Issued(it) && Position(it) == |Contents()|
    {
      IterAtInjective(|elemTable.order|, |elemTable.order|);
      Iterator(Tail, elemTable.tag)
    }

    /** `begin()` equals `end()` exactly for the empty map. */
    lemma BeginIsEndIffEmpty()
      requires elemTable.Valid()
      ensures Begin() == End() <==> Contents() == []
    {
      IterAtPosition(Begin());
      IterAtPosition(End());
      IterAtInjective(0, |elemTable.order|);
    }

    /** `operator==` / `operator!=` between an iterator `a` of this map and any iterator
        `b`: they compare the node pointers, so two iterators of this map agree exactly when
        their positions do, and an iterator of another map (whose nodes are other objects)
        never equals `a`. Node handles are only unique within one list, so the comparison
        includes the identity to stand for pointer distinctness across lists. */
    function Equal(a: Iterator, b: Iterator): (r: bool)
      reads elemTable
      requires elemTable.Valid() && Issued(a)
      requires b.identity == elemTable.tag ==> Issued(b)
      ensures b.identity != elemTable.tag ==> !r
      ensures b.identity == elemTable.tag ==> (r <==> Position(a) == Position(b))
    {
      IterAtPosition(a);
      if b.identity == elemTable.tag then
        IterAtPosition(b);
        a == b
      else
        false
    }

    /** Prefix `++`: `invalid_iterator` at the end, the next position otherwise. */
    function Next(it: Iterator): (r: Result<Iterator>)
      reads elemTable
      requires elemTable.Valid() && Issued(it)
      ensures Position(it) == |Contents()| ==> r == Err(InvalidIterator)
      ensures Position(it) < |Contents()| ==> r == Ok(IterAt(Position(it) + 1))
    {
      IterAtPosition(it);
      elemTable.LinkAt(Position(it));
      if elemTable.nodes[it.node].next == Nil then Err(InvalidIterator)
      else Ok(Iterator(elemTable.nodes[it.node].next.to, it.identity))
    }

    /** Prefix `--`: `invalid_iterator` when the node before is the head sentinel (at the
        first entry, or at the end of an empty map), the previous position otherwise. */
    function Prev(it: Iterator): (r: Result<Iterator>)
      reads elemTable
      requires elemTable.Valid() && Issued(it)
      ensures Position(it) == 0 ==> r == Err(InvalidIterator)
      ensures Position(it) > 0 ==> r == Ok(IterAt(Position(it) - 1))
    {
      StepBack(it);
      var before := elemTable.nodes[it.node].prev.to;
      if elemTable.nodes[before].prev == Nil then Err(InvalidIterator)
      else Ok(Iterator(before, it.identity))
    }

    /** The node before the one `it` points at, and whether that node is the head sentinel. */
    lemma StepBack(it: Iterator)
      requires elemTable.Valid() && Issued(it)
      ensures Position(it) <= |elemTable.order| && it == IterAt(Position(it))
      ensures it.node < |elemTable.nodes| && elemTable.nodes[it.node].prev == Ref(elemTable.Walk()[Position(it)])
      ensures elemTable.Walk()[Position(it)] < |elemTable.nodes|
      ensures elemTable.nodes[elemTable.Walk()[Position(it)]].prev.Nil? <==> Position(it) == 0
    {
      IterAtPosition(it);
      var p := Position(it);
      elemTable.LinkAt(p);
      if p > 0 {
        elemTable.LinkAt(p - 1);
      }
    }

    /** `n` prefix increments starting from `begin()`: they visit the entries in insertion
        order, reach `end()` after the last one, and throw one step later. */
    function Advance(n: nat): (r: Result<Iterator>)
      reads elemTable
      requires elemTable.Valid()
      ensures n <= |Contents()| ==> r == Ok(IterAt(n))
      ensures n > |Contents()| ==> r == Err(InvalidIterator)
    {
      if n == 0 then Ok(Begin())
      else match Advance(n - 1)
        case Err(e) => Err(e)
        case Ok(it) =>
          IterAtInjective(n - 1, n - 1);
          Next(it)
    }

    /** Iterating from `begin()` yields the entries in list order, which is insertion
        order: the `i`-th increment lands on the `i`-th entry. */
    lemma IterationOrder(i: nat)
      requires elemTable.Valid() && i < |Contents()|
      ensures Advance(i).Ok? && Advance(i).value.node != Tail
      ensures Deref(Advance(i).value) == Contents()[i]
    {
      IterAtInjective(i, |elemTable.order|);
    }

    /** `operator*` / `operator->`: the entry an iterator to a live entry points at. */
    function Deref(it: Iterator): (e: Entry<K, V>)
      reads elemTable
      requires elemTable.Valid() && Issued(it) && it.node != Tail
      ensures Position(it) < |Contents()| && e == Contents()[Position(it)]
    {
      Holds(it.node);
      elemTable.nodes[it.node].val.value
    }

    /** Postfix `++`: moves like prefix `++` and returns the iterator as it was. */
    function PostIncrement(it: Iterator): (r: Result<Stepped>)
      reads elemTable
      requires elemTable.Valid() && Issued(it)
      ensures Position(it) == |Contents()| ==> r == Err(InvalidIterator)
      ensures Position(it) < |Contents()| ==> r == Ok(Stepped(IterAt(Position(it) + 1), it))
    {
      match Next(it)
      case Err(e) => Err(e)
      case Ok(moved) => Ok(Stepped(moved, it))
    }

    /** Postfix `--` as written: moves like prefix `--` but returns the moved iterator
        (`*this`) instead of the copy taken before the move. */
    function PostDecrement(it: Iterator): (r: Result<Stepped>)
      reads elemTable
      requires elemTable.Valid() && Issued(it)
      ensures Position(it) == 0 ==> r == Err(InvalidIterator)
      ensures Position(it) > 0 ==> r == Ok(Stepped(IterAt(Position(it) - 1), IterAt(Position(it) - 1)))
    {
      match Prev(it)
      case Err(e) => Err(e)
      case Ok(moved) => Ok(Stepped(moved, moved))
    }

    /** Postfix `--` as a postfix operator is meant to be: returns the iterator as it was. */
    function PostDecrementIntended(it: Iterator): (r: Result<Stepped>)
      reads elemTable
      requires elemTable.Valid() && Issued(it)
      ensures Position(it) == 0 ==> r == Err(InvalidIterator)
      ensures Position(it) > 0 ==> r == Ok(Stepped(IterAt(Position(it) - 1), it))
    {
      match Prev(it)
      case Err(e) => Err(e)
      case Ok(moved) => Ok(Stepped(moved, it))
    }

    /** Whenever postfix `--` succeeds, the value it returns is not the iterator it was
        applied to: `it--` behaves as `--it`. */
    lemma PostDecrementLosesOriginal(it: Iterator)
      requires elemTable.Valid() && Issued(it) && Position(it) > 0
      ensures PostDecrement(it).Ok? && PostDecrement(it).value.returned != it
      ensures PostDecrement(it).value.returned == PostDecrement(it).value.moved
    {
      IterAtPosition(it);
      IterAtInjective(Position(it) - 1, Position(it));
    }
  }
}
