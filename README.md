# linked_hashmap in Dafny

This is a model of `sjtu::linked_hashmap<Key, T, Hash, Equal>` from `linked_hashmap.hpp`. The map keeps its entries in two places:

- **The entry list.** A doubly linked list with head and tail sentinels (`elemTable`) owns every `pair<const Key, T>`. Entries sit in insertion order.
- **The bucket index.** An array of `capacity` buckets (`hashList`). Each bucket is a list of pointers to the entry nodes whose key hashes to it, in list order.

Lookups hash the key, take it modulo `capacity`, and scan that one bucket. Iterators walk the entry list, so they visit entries in insertion order. Each iterator carries the address of its map's head sentinel as its identity.

### Growth and shrinking

A new map has `1 << 15` buckets and a load factor of `1 << 5`.

- **Growth.** An insertion of a new key first increments `totLength`. When `totLength >= capacity * loadFactor`, it doubles `capacity` and rebuilds the index.
- **Shrinking.** An erasure first decrements `totLength`. When `totLength < capacity * loadFactor / 2`, it halves `capacity` and rebuilds the index. It does not halve when half the capacity would be 0.

### How the model is organised

The model is imperative, like the source.

`LinkedLists.LinkedList`
- A class whose node pointers are handles into an arena sequence of nodes. Handle 0 is the head sentinel and handle 1 the tail sentinel.
- Ghost fields `order` (the live handles, front to back) and `Contents` (their elements) are tied to the pointers by the `Chain` predicate.
- `Insert`, `Remove`, `PushBack`, `Erase`, `Clear` and the copy constructor rewire the `prev`/`next` pointers as the source does. Each one is proved to make the stated change to `order` and `Contents`.

`LinkedHashMaps.LinkedHashMap`
- A class whose bucket index is an `array<seq<nat>>` of node handles.
- Its invariant `Valid()` says four things:
  - Bucket `j` is exactly the list-order sequence of the live nodes whose key hashes to `j`.
  - Keys are unique.
  - `totLength` is the entry count.
  - `totLength < capacity * loadFactor`, with `capacity` a power of two.
- Every operation keeps `Valid()` and states the new entry sequence. The map's abstract value is `Contents()`, the entries in iteration order.

The remaining modules hold the pure parts:
- `Sequences` holds the sequence helpers.
- `Entries` holds the entry datatype and its key view.
- `BucketIndex` holds the bucket filter, its lemmas and the resize policy.
- `Scenarios` is a small client that runs a fixed sequence of operations.

### Inputs the model takes as parameters

- **Hash and Equal.** The template parameter `Hash` is a function value `K -> nat` given to the constructor. `Equal` is Dafny's `==` on a key type with equality.
- **The default value `T()`.** `operator[]` stores `T()` under a new key. This value is a constructor parameter.
- **References.** A `T&` returned by `operator[]` is modelled as the handle of the entry's node. `Assign` stores a value through such a handle.
- **Exceptions.** A thrown exception is a `Result`/`Outcome` error value:
  - `IndexOutOfBound` for `index_out_of_bound`;
  - `InvalidIterator` for `invalid_iterator`.

`erase` throws `index_out_of_bound` for `end()` and for an iterator of another map (`linked_hashmap.hpp:676-680`).

Node handles stay valid until their own node is erased, across resizes too, because a resize rebuilds only the bucket index and never touches the entry list. Every mutating operation therefore states its new node order (`elemTable.order`) as well as its new entries. An iterator or `operator[]` reference a caller holds is still issued afterwards, and still points at the same entry, unless that entry was erased.

## Model

| member | source | states |
|---|---|---|
| LinkedLists.LinkedList.constructor | linked_hashmap.hpp:52-57 | a new list has no live nodes: the head sentinel points at the tail sentinel, and the list has a fresh identity |
| LinkedLists.LinkedList.Insert | linked_hashmap.hpp:65-72 | linking the detached node `cur` in after `pos` inserts its element into the sequence right after `pos`'s position (at the front when `pos` is the head), and keeps the list well formed |
| LinkedLists.LinkedList.Remove | linked_hashmap.hpp:74-81 | unlinking a live node cuts exactly its position out of the node order and out of the contents, keeps the rest in order, and clears the node's own pointers |
| LinkedLists.LinkedList.Copy | linked_hashmap.hpp:83-93 | the copy has a fresh identity and holds the same elements in the same order |
| LinkedLists.LinkedList.Clear | linked_hashmap.hpp:118-125 | after the front-to-back removal loop the list is empty and well formed |
| LinkedLists.LinkedList.Empty | linked_hashmap.hpp:127-129 | `head->next == tail` holds exactly when the list has no elements |
| LinkedLists.LinkedList.Erase | linked_hashmap.hpp:131-133 | erasing a live node removes exactly its element and keeps the order of the others |
| LinkedLists.LinkedList.PushBack | linked_hashmap.hpp:135-139 | the new element is appended after all others, in a new node whose handle is returned |
| LinkedLists.LinkedList.Store | linked_hashmap.hpp:520 | writing through a node overwrites only that node's element; the order is unchanged |
| LinkedHashMaps.InitialCapacityIsPow2 | linked_hashmap.hpp:455-456 | the initial bucket count `1 << 15` is a power of two, which the halving step relies on |
| LinkedHashMaps.LinkedHashMap.constructor | linked_hashmap.hpp:454-459 | a new map is empty and valid, with `1 << 15` empty buckets and load factor `1 << 5`, a fresh identity (its own head sentinel, line 53) that no other map's iterator carries, and the given value as the `T()` that `operator[]` stores |
| LinkedHashMaps.LinkedHashMap.Copy | linked_hashmap.hpp:461-472 | the copy is valid and has the same entries in the same order, with the same capacity, load factor and `T()` value; its list and its index are fresh, so they share nothing with the original |
| LinkedHashMaps.LinkedHashMap.BuildHashList | linked_hashmap.hpp:411-427 | one pass over the entry list builds a fresh index in which every bucket holds exactly its keys' nodes, in list order; the entry sequence and the count are unchanged |
| LinkedHashMaps.LinkedHashMap.DoubleSize | linked_hashmap.hpp:449-452 | the capacity doubles, the index matches again, and the entries are unchanged |
| LinkedHashMaps.LinkedHashMap.HalfSize | linked_hashmap.hpp:429-448 | the capacity halves unless half of it is 0, in which case nothing changes; the index matches the entries afterwards |
| LinkedHashMaps.LinkedHashMap.EntryIndexedOnce | linked_hashmap.hpp:411-427 | every live entry is referenced exactly once by the bucket its key hashes to, and not at all by any other bucket |
| LinkedHashMaps.LinkedHashMap.BucketHoldsOwnKeys | linked_hashmap.hpp:419-422 | every node a bucket references is a live entry whose key hashes to that bucket |
| LinkedHashMaps.LinkedHashMap.Find | linked_hashmap.hpp:744-781 | the bucket scan returns the iterator to the entry holding `key`, or `end()` exactly when the key is absent |
| LinkedHashMaps.LinkedHashMap.Miss | linked_hashmap.hpp:750-760 | a key that no node of its own bucket carries is absent from the whole map, so returning `end()` is right |
| LinkedHashMaps.LinkedHashMap.CheckExistence | linked_hashmap.hpp:711-728 | the result is true exactly when the key is in the map |
| LinkedHashMaps.LinkedHashMap.Count | linked_hashmap.hpp:730-736 | 1 when the key is present, 0 otherwise, in agreement with `find` and `checkExistence` |
| LinkedHashMaps.LinkedHashMap.At | linked_hashmap.hpp:513-533 | the value stored under the key, or `index_out_of_bound` exactly when the key is absent; this covers the const `operator[]` at 575-585 too |
| LinkedHashMaps.LinkedHashMap.AppendEntry | linked_hashmap.hpp:653-662 | one more entry is counted, the capacity doubles exactly when the new count reaches `capacity * loadFactor`, and the entry is appended to the list and indexed; the load invariant still holds |
| LinkedHashMaps.LinkedHashMap.Subscript | linked_hashmap.hpp:541-570 | returns the node holding the key's value. For a present key the entries and the node order are unchanged. For an absent key the entry `(key, T())` is appended in the returned node at the back of the node order, with the same growth rule as `insert` |
| LinkedHashMaps.LinkedHashMap.Assign | linked_hashmap.hpp:547-549 | assigning through the reference `operator[]` returned changes only that entry's value; every key and the node order stay, so the reference stays usable |
| LinkedHashMaps.LinkedHashMap.Insert | linked_hashmap.hpp:646-667 | `inserted` is true exactly when the key was absent. If it was absent, the entry is appended in the new node at the back of the node order, the capacity follows the growth rule, and the iterator points at the new last entry. If it was present, the entries and the node order are unchanged and the iterator points at the entry that blocked the insertion |
| LinkedHashMaps.LinkedHashMap.Erase | linked_hashmap.hpp:675-702 | `end()` or an iterator of another map gives `index_out_of_bound` and leaves the entries and the node order unchanged. Otherwise exactly the pointed-at entry and its node are removed, the other entries and nodes keep their order, its key is gone, and the capacity follows the halving rule |
| LinkedHashMaps.LinkedHashMap.CountErasure | linked_hashmap.hpp:682-684 | the count drops by one, and the index is halved exactly when the new count is below half the growth threshold and the capacity's half is non-zero |
| LinkedHashMaps.LinkedHashMap.DropFromBucket | linked_hashmap.hpp:692-699 | the bucket scan unlinks the first reference to the node from its bucket; all other buckets are untouched |
| LinkedHashMaps.LinkedHashMap.Clear | linked_hashmap.hpp:633-638 | every bucket is emptied, and so is the entry list; the capacity and the bucket array stay the same |
| LinkedHashMaps.LinkedHashMap.Size | linked_hashmap.hpp:626-628 | `totLength` is the number of entries |
| LinkedHashMaps.LinkedHashMap.Empty | linked_hashmap.hpp:617-621 | true exactly when the map holds no entries |
| LinkedHashMaps.LinkedHashMap.Begin | linked_hashmap.hpp:590-597 | an iterator of this map at position 0 |
| LinkedHashMaps.LinkedHashMap.End | linked_hashmap.hpp:603-611 | an iterator of this map at the tail sentinel, one past the last entry |
| LinkedHashMaps.LinkedHashMap.BeginIsEndIffEmpty | linked_hashmap.hpp:590-611 | `begin() == end()` exactly when the map is empty |
| LinkedHashMaps.LinkedHashMap.Equal | linked_hashmap.hpp:270-293 | `==` on node pointers holds between two iterators of this map exactly when they are at the same position, and never holds against an iterator of another map (`!=` is its negation) |
| LinkedHashMaps.LinkedHashMap.Next | linked_hashmap.hpp:234-239 | prefix `++` moves to the next position, and throws `invalid_iterator` at `end()` |
| LinkedHashMaps.LinkedHashMap.Prev | linked_hashmap.hpp:257-263 | prefix `--` moves to the previous position, and throws `invalid_iterator` at position 0 (including `end()` of an empty map) |
| LinkedHashMaps.LinkedHashMap.Advance | linked_hashmap.hpp:234-239 | `n` increments from `begin()` reach position `n` while `n` is at most the size, and throw `invalid_iterator` once they pass `end()` |
| LinkedHashMaps.LinkedHashMap.IterationOrder | linked_hashmap.hpp:266-268 | dereferencing after `i` increments from `begin()` gives the `i`-th entry in insertion order |
| LinkedHashMaps.LinkedHashMap.Deref | linked_hashmap.hpp:266-268 | `*it` is the entry at the iterator's position |
| LinkedHashMaps.LinkedHashMap.PostIncrement | linked_hashmap.hpp:221-229 | postfix `++` moves like prefix `++` and returns the iterator as it was before the move |
| LinkedHashMaps.LinkedHashMap.PostDecrement | linked_hashmap.hpp:244-252 | postfix `--` as written moves like prefix `--` but returns the moved iterator |
| LinkedHashMaps.LinkedHashMap.PostDecrementLosesOriginal | linked_hashmap.hpp:244-252 | whenever postfix `--` succeeds, the value it returns differs from the iterator it was applied to |
| LinkedHashMaps.LinkedHashMap.PostDecrementIntended | linked_hashmap.hpp:244-252 | postfix `--` as intended moves back one position and returns the iterator as it was before the move |
| BucketIndex.IndexAppend | linked_hashmap.hpp:418-423 | appending a node to the bucket of its key keeps every bucket equal to the list-order filter of the grown entry list |
| BucketIndex.IndexErase | linked_hashmap.hpp:692-701 | unlinking an entry's first reference from its bucket and its node from the list keeps the index matching |
| BucketIndex.Grown | linked_hashmap.hpp:653-655 | after an insertion the capacity is the old one or its double |
| BucketIndex.Shrunk | linked_hashmap.hpp:682-684 | after an erasure the capacity is the old one or its half, and never drops to 0 |
| BucketIndex.GrowthKeepsLoadBelow | linked_hashmap.hpp:653-655 | if the count was below the growth threshold before an insertion, it is below the threshold of the resulting capacity |
| BucketIndex.ShrinkKeepsLoadBelow | linked_hashmap.hpp:682-684 | for a power-of-two capacity, halving never pushes the count back to the growth threshold |
| BucketIndex.NoGrowthBelowLoad | linked_hashmap.hpp:653-655 | fewer than `capacity * loadFactor` insertions into an empty map never resize it |
| BucketIndex.FirstGrowth | linked_hashmap.hpp:653-655 | the insertion that reaches `capacity * loadFactor` entries is the one that doubles the capacity |
| Scenarios.InsertThree | linked_hashmap.hpp:646-667 | inserting `a`, `b`, `c` into a new map gives the entries `a`, `b`, `c` in that order |
| Scenarios.EraseB | linked_hashmap.hpp:675-702 | erasing `b` through its `find` iterator leaves `a`, `c` |
| Scenarios.EraseAndReinsert | linked_hashmap.hpp:646-667 | a later insertion of `d` is appended after the survivors: `a`, `c`, `d` |
| Scenarios.InsertEraseReinsert | linked_hashmap.hpp:513-533 | afterwards the size is 3, `at("b")` throws `index_out_of_bound`, `count("b")` is 0, and `find("b")` is `end()` |
| Scenarios.HeldIteratorSurvives | linked_hashmap.hpp:646-702 | a `begin()` iterator taken before erasing `c` and inserting `d` still dereferences to `a` afterwards |
| Scenarios.ForeignIterator | linked_hashmap.hpp:675-680 | two maps built apart have different identities: erasing one map's iterator from the other throws `index_out_of_bound` and leaves it empty, and `==` between their iterators is false |
| Scenarios.SubscriptStoresDefault | linked_hashmap.hpp:555-567 | `operator[]` on an absent key of a new map built with `0` as `T()` stores `("x", 0)`, and `at("x")` then gives `0` |

## Left out

- Memory management is not modelled: `new`/`delete`, destructors, and freeing erased nodes. An erased node stays in the arena, detached. Allocation never fails.
- `LinkedList::operator=` (lines 95-116) and the map's `operator=` (lines 477-496) are not modelled. The map copy constructor default-constructs its list and then assigns it; the model builds the list with the list copy constructor, which has the same effect.
- Default-constructed iterators (null node pointer) and iterators left dangling by `erase` are not modelled as values of their own. Stepping or dereferencing either is undefined behaviour in the source, and the `Issued` precondition excludes that. Comparing a null iterator, or passing it to `erase`, is well defined: it compares unequal to every live iterator (lines 270-293) and makes `erase` throw `index_out_of_bound` at the identity check (lines 679-680). The model gives exactly those answers for any iterator with a foreign identity (`Equal`, `Erase`, and `Scenarios.ForeignIterator`).
- LinkedHashMaps.LinkedHashMap.Next, Prev, Deref, PostIncrement, PostDecrement: these take an iterator of the map they are asked through. In the source, `++`, `--` and `*` never consult a map; they follow only the node's own pointers. An iterator of another map steps through that map's list in the same way, as that map's members state.
- `size_t` arithmetic is unbounded: the model does not capture wrap-around of `totLength`, `capacity * loadFactor` or the hash value.
- `Hash` and `Equal` are a function value and `==`. A user `Equal` that is not an equivalence is not modelled.
- Each bucket is a `seq` of node handles rather than a `LinkedList<dataNode*>`. Bucket nodes have no identity, so the bucket scan of `erase` removes the first matching handle.
- `HalfSize` calls `BuildHashList` instead of repeating its loop inline (lines 437-445). The two loops are the same.
- The const overloads share one member each: `cbegin`, `cend`, the const `find`, the const `at`, the const `operator[]`, and the `const_iterator` operators at lines 333-406. `const_iterator` and `iterator` are one datatype. The conversion constructors between them (lines 200-216, 300-330) copy both fields and are left implicit.
- `operator->` (lines 296-298, 403-405) is the same access as `operator*` and has no member of its own.
- `Subscript` finds the key's node with `Find`; the source repeats the same bucket scan inline at lines 545-552.

## Findings

| source | as written | input that shows it | evidently intended | confidence | as-written member | corrected member |
|---|---|---|---|---|---|---|
| linked_hashmap.hpp:244-252 (also 352-360) | postfix `operator--(int)` saves `ret = *this`, moves, then returns `*this`, so `it--` yields the moved iterator, just as `--it` does | a map with one entry and `it = end()`: `it--` returns `begin()` instead of `end()` | return the saved copy `ret`, as postfix `++` at 221-229 does | high; not executed | LinkedHashMaps.LinkedHashMap.PostDecrementLosesOriginal | LinkedHashMaps.LinkedHashMap.PostDecrementIntended |
