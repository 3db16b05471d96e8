/** A client of the map: insert three keys, erase the middle one, insert a fourth; keys are
    hashed by their length. */
module Scenarios {
  import opened Entries
  import opened LinkedHashMaps

  /** `insert` of an entry whose key is new appends it. */
  method InsertNew(m: LinkedHashMap<string, int>, e: Entry<string, int>)
    requires m.Valid() && e.key !in m.Keys()
    modifies m, m.elemTable, m.hashList
    ensures m.Valid() && m.Contents() == old(m.Contents()) + [e]
    ensures m.hashList == old(m.hashList) || fresh(m.hashList)
  {
    var _, _ := m.Insert(e);
  }

  /** Inserts `a`, `b`, `c` into a new map. */
  method InsertThree() returns (m: LinkedHashMap<string, int>)
    ensures fresh(m) && fresh(m.elemTable) && fresh(m.hashList) && m.Valid()
    ensures m.Contents() == [Entry("a", 1), Entry("b", 2), Entry("c", 3)]
  {
    var byLength: string -> nat := s => |s|;
    m := new LinkedHashMap<string, int>(byLength, 0);
    InsertNew(m, Entry("a", 1));
    assert m.Keys() == ["a"];
    InsertNew(m, Entry("b", 2));
    assert m.Keys() == ["a", "b"];
    InsertNew(m, Entry("c", 3));
  }

  /** Then erases `b` through the iterator `find` gives for it. */
  method EraseB() returns (m: LinkedHashMap<string, int>)
    ensures fresh(m) && fresh(m.elemTable) && fresh(m.hashList) && m.Valid()
    ensures m.Contents() == [Entry("a", 1), Entry("c", 3)]
  {
    m := InsertThree();
    assert m.Keys() == ["a", "b", "c"];
    var pos := m.Find("b");
    m.IterAtInjective(1, 1);
    var _ := m.Erase(pos);
  }

  /** And inserts `d`: the order is `a`, `c`, `d`. */
  method EraseAndReinsert() returns (m: LinkedHashMap<string, int>)
    ensures fresh(m) && fresh(m.elemTable) && fresh(m.hashList) && m.Valid()
    ensures m.Contents() == [Entry("a", 1), Entry("c", 3), Entry("d", 4)]
  {
    m := EraseB();
    assert m.Keys() == ["a", "c"];
    InsertNew(m, Entry("d", 4));
  }

  /** Afterwards three entries remain and `b` is gone: `find` gives the end, `at` throws
      `index_out_of_bound`, `count` is 0. */
  method InsertEraseReinsert() returns (size: nat, atB: Result<int>, countB: nat, findB: bool)
    ensures size == 3 && atB == Err(IndexOutOfBound) && countB == 0 && !findB
  {
    var m := EraseAndReinsert();
    assert m.Keys() == ["a", "c", "d"];
    size := m.Size();
    atB := m.At("b");
    countB := m.Count("b");
    var it := m.Find("b");
    findB := it != m.End();
  }

  /** An iterator taken before an erasure of another entry and an insertion still points at
      the same entry afterwards. */
  method HeldIteratorSurvives() returns (first: Entry<string, int>)
    ensures first == Entry("a", 1)
  {
    var m := InsertThree();
    assert m.Keys() == ["a", "b", "c"];
    var b := m.Begin();
    m.IterAtPosition(b);
    ghost var h := m.elemTable.order[0];
    assert b.node == h;
    var pos := m.Find("c");
    m.IterAtInjective(2, 2);
    var _ := m.Erase(pos);
    assert m.elemTable.order[0] == h;
    var _, _ := m.Insert(Entry("d", 4));
    assert m.elemTable.order[0] == h;
    m.IterAtInjective(0, |m.elemTable.order|);
    first := m.Deref(b);
  }

  /** Two maps built apart have different identities: `erase` on one with an iterator of
      the other throws `index_out_of_bound` and changes nothing, and `==` between their
      iterators is false. */
  method ForeignIterator() returns (r: Outcome, same: bool, size: nat)
    ensures r == Fail(IndexOutOfBound) && !same && size == 0
  {
    var byLength: string -> nat := s => |s|;
    var m1 := new LinkedHashMap<string, int>(byLength, 0);
    var m2 := new LinkedHashMap<string, int>(byLength, 0);
    InsertNew(m2, Entry("a", 1));
    var b := m2.Begin();
    same := m1.Equal(m1.End(), b);
    r := m1.Erase(b);
    size := m1.Size();
  }

  /** `operator[]` on an absent key stores the value the map was built with as `T()`, and
      `at` then finds it. */
  method SubscriptStoresDefault() returns (ghost contents: seq<Entry<string, int>>, x: Result<int>)
    ensures contents == [Entry("x", 0)] && x == Ok(0)
  {
    var byLength: string -> nat := s => |s|;
    var m := new LinkedHashMap<string, int>(byLength, 0);
    var _ := m.Subscript("x");
    contents := m.Contents();
    assert m.Keys() == ["x"];
    x := m.At("x");
  }
}
